// The security graph of graph.go: trust edges over identities and certificates, rebuilt
// from ISSUE events, and breadth-first reachability in it.

module Graphs {
  import opened Wrappers
  import opened Events
  import opened Chains

  /** Nodes are the prefixed strings "id:..." and "cert:...". */
  datatype Node = IdNode(identity: string) | CertNode(certId: string)

  /** Edges carry the event that created them. */
  type Edges = map<Node, map<Node, string>>

  function Successors(edges: Edges, a: Node): set<Node> {
    if a in edges then edges[a].Keys else {}
  }

  predicate Closed(edges: Edges, s: set<Node>) {
    forall a <- s :: Successors(edges, a) <= s
  }

  function WithEdge(edges: Edges, src: Node, dst: Node, via: string): Edges {
    edges[src := (if src in edges then edges[src] else map[])[dst := via]]
  }

  function NodesOf(edges: Edges): set<Node> {
    set a, b | a in edges && b in edges[a] :: b
  }

  class SecurityGraph {
    var edges: Edges

    constructor ()
      ensures edges == map[]
    {
      edges := map[];
    }

    method AddEdge(src: Node, dst: Node, via: string)
      modifies this
      ensures edges == WithEdge(old(edges), src, dst, via)
      ensures src in edges && dst in edges[src] && edges[src][dst] == via
      ensures Successors(edges, src) == Successors(old(edges), src) + {dst}
      ensures forall a :: a != src ==> Successors(edges, a) == Successors(old(edges), a)
    {
      if src !in edges {
        edges := edges[src := map[]];
      }
      edges := edges[src := edges[src][dst := via]];
    }

    /** The breadth-first search ends on every graph and returns the least closed set with the start in it. */
    method Reachable(from: Node) returns (seen: set<Node>)
      ensures from in seen && Closed(edges, seen)
      ensures forall s | from in s && Closed(edges, s) :: seen <= s
    {
      seen := {from};
      var queue := [from];
      ghost var all := {from} + NodesOf(edges);
      while |queue| > 0
        invariant from in seen && seen <= all
        invariant forall n <- queue :: n in seen
        invariant forall n <- seen :: n in queue || Successors(edges, n) <= seen
        invariant forall s | from in s && Closed(edges, s) :: seen <= s
        decreases all - seen, |queue|
      {
        var cur := queue[0];
        assert queue == [cur] + queue[1..];
        queue := queue[1..];
        ghost var before, waiting := seen, queue;
        seen, queue := Visit(from, cur, seen, queue);
        assert Successors(edges, cur) <= NodesOf(edges);
        if queue != waiting {
          assert all - seen < all - before;
        }
      }
    }

    /** One round of the search: the unseen successors of cur join the queue, in any order. */
    method Visit(ghost from: Node, cur: Node, seen0: set<Node>, queue0: seq<Node>)
      returns (seen: set<Node>, queue: seq<Node>)
      ensures seen == seen0 + Successors(edges, cur)
      ensures queue0 <= queue && (seen == seen0 ==> queue == queue0)
      ensures forall n :: n in queue <==> n in queue0 || n in seen - seen0
    {
      seen, queue := seen0, queue0;
      var all := Successors(edges, cur);
      var left := all;
      while left != {}
        invariant left <= all
        invariant seen == seen0 + (all - left)
        invariant queue0 <= queue && (seen == seen0 ==> queue == queue0)
        invariant forall n :: n in queue <==> n in queue0 || n in seen - seen0
        decreases left
      {
        var dst :| dst in left;
        left := left - {dst};
        if dst !in seen {
          seen := seen + {dst};
          queue := queue + [dst];
        }
      }
    }
  }

  // ---------------------------------------------------------------- building

  /** The fields of an ISSUE event whose payload parses. */
  function IssueOf(e: Body): Option<IssueFields> {
    if e.typ == Issue then AsIssue(e.payload) else None
  }

  /** The edges event e contributes: identity to certificate, and issuer certificate to certificate. */
  predicate MakesEdge(e: Body, a: Node, b: Node) {
    IssueOf(e).Some? &&
    var f := IssueOf(e).value;
    b == CertNode(f.certId) && (a == IdNode(f.identity) || (f.via != "" && a == CertNode(f.via)))
  }

  ghost predicate EdgesOf(edges: Edges, events: Link) {
    forall a, b :: b in Successors(edges, a) <==> exists i :: 0 <= i < |events| && MakesEdge(events[i].body, a, b)
  }

  /** A node leads to a certificate exactly when some parsable ISSUE event issues it to that identity or through
      that certificate, and to nothing else. */
  lemma EdgesExactly(edges: Edges, events: Link, n: Node, m: Node)
    requires EdgesOf(edges, events)
    ensures m in Successors(edges, n) <==>
            exists i :: 0 <= i < |events| && events[i].body.typ == Issue && AsIssue(events[i].body.payload).Some?
                        && var f := AsIssue(events[i].body.payload).value;
                           m == CertNode(f.certId) && (n == IdNode(f.identity) || (f.via != "" && n == CertNode(f.via)))
  {
    if i :| 0 <= i < |events| && MakesEdge(events[i].body, n, m) {
      assert m in Successors(edges, n);
    }
    if i :| 0 <= i < |events| && events[i].body.typ == Issue && AsIssue(events[i].body.payload).Some?
            && var f := AsIssue(events[i].body.payload).value;
               m == CertNode(f.certId) && (n == IdNode(f.identity) || (f.via != "" && n == CertNode(f.via))) {
      assert MakesEdge(events[i].body, n, m);
    }
  }

  lemma EdgesGrow(edges: Edges, more: Edges, events: Link, e: Event)
    requires EdgesOf(edges, events)
    requires forall a, b :: b in Successors(more, a) <==> b in Successors(edges, a) || MakesEdge(e.body, a, b)
    ensures EdgesOf(more, events + [e])
  {
    var longer := events + [e];
    forall a, b
      ensures b in Successors(more, a) <==> exists i :: 0 <= i < |longer| && MakesEdge(longer[i].body, a, b)
    {
      if b in Successors(edges, a) {
        var i :| 0 <= i < |events| && MakesEdge(events[i].body, a, b);
        assert MakesEdge(longer[i].body, a, b);
      }
      if MakesEdge(e.body, a, b) {
        assert MakesEdge(longer[|events|].body, a, b);
      }
      if i :| 0 <= i < |longer| && MakesEdge(longer[i].body, a, b) {
        assert i < |events| ==> MakesEdge(events[i].body, a, b);
      }
    }
  }

  /** The edges of one event. */
  method AddIssue(g: SecurityGraph, e: Body)
    modifies g
    ensures forall a, b :: b in Successors(g.edges, a) <==> b in Successors(old(g.edges), a) || MakesEdge(e, a, b)
  {
    var f := IssueOf(e);
    if f.Some? {
      var c := CertNode(f.value.certId);
      g.AddEdge(IdNode(f.value.identity), c, "issue:" + f.value.certId);
      if f.value.via != "" {
        g.AddEdge(CertNode(f.value.via), c, "issue:" + f.value.certId);
      }
    }
  }

  /** BuildGraph: an edge for each issuance, and one for each issuance through a certificate. */
  method BuildGraph(events: Link) returns (g: SecurityGraph)
    ensures fresh(g) && EdgesOf(g.edges, events)
  {
    g := new SecurityGraph();
    for i := 0 to |events|
      invariant fresh(g) && EdgesOf(g.edges, events[..i])
    {
      ghost var before := g.edges;
      AddIssue(g, events[i].body);
      EdgesGrow(before, g.edges, events[..i], events[i]);
      assert events[..i] + [events[i]] == events[..i + 1];
    }
    assert events[..|events|] == events;
  }
}
