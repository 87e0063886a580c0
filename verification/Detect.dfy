// The CUSUM change-point detector (detect.go) and the watchdogs that feed it issuance and
// trust-edge counts (watchdogs.go). Samples are real numbers.

module Detection {
  import opened Wrappers
  import opened Events
  import opened Chains
  import opened Graphs

  function Max(a: real, b: real): real {
    if a >= b then a else b
  }

  /** S after a sample sequence; k is mu0 + delta. */
  function Level(xs: seq<real>, k: real): real {
    if xs == [] then 0.0 else Max(0.0, Level(xs[..|xs| - 1], k) + xs[|xs| - 1] - k)
  }

  /** How far the window from i to the end exceeds its allowance of k a sample. */
  function Excess(xs: seq<real>, k: real, i: nat): real
    requires i <= |xs|
    decreases |xs|
  {
    if i == |xs| then 0.0 else Excess(xs[..|xs| - 1], k, i) + xs[|xs| - 1] - k
  }

  /** S is the largest excess over all windows that end now, the empty one included. */
  lemma {:induction false} ClosedForm(xs: seq<real>, k: real)
    ensures forall i :: 0 <= i <= |xs| ==> Excess(xs, k, i) <= Level(xs, k)
    ensures exists i :: 0 <= i <= |xs| && Excess(xs, k, i) == Level(xs, k)
  {
    if xs == [] {
      assert Excess(xs, k, 0) == Level(xs, k);
    } else {
      var front := xs[..|xs| - 1];
      ClosedForm(front, k);
      forall i | 0 <= i <= |xs| ensures Excess(xs, k, i) <= Level(xs, k) {
        if i < |xs| {
          assert Excess(front, k, i) <= Level(front, k);
        }
      }
      var i :| 0 <= i <= |front| && Excess(front, k, i) == Level(front, k);
      assert Excess(xs, k, i) == Level(front, k) + xs[|xs| - 1] - k;
      assert Excess(xs, k, |xs|) == 0.0;
    }
  }

  /** The bound is crossed exactly when some window ending now has that much excess. */
  predicate SomeWindow(xs: seq<real>, k: real, h: real) {
    exists i :: 0 <= i < |xs| && Excess(xs, k, i) >= h
  }

  lemma AlarmExactly(xs: seq<real>, k: real, h: real)
    requires h > 0.0
    ensures Level(xs, k) >= h <==> SomeWindow(xs, k, h)
  {
    ClosedForm(xs, k);
    if Level(xs, k) >= h {
      var i :| 0 <= i <= |xs| && Excess(xs, k, i) == Level(xs, k);
      assert i < |xs|;
    }
  }

  class CUSUM {
    const mu0: real
    const delta: real
    const h: real
    var S: real
    ghost var samples: seq<real>

    ghost predicate Valid()
      reads this
    {
      S == Level(samples, mu0 + delta)
    }

    constructor (mu0: real, delta: real, h: real)
      ensures Valid() && samples == [] && this.mu0 == mu0 && this.delta == delta && this.h == h
    {
      this.mu0, this.delta, this.h, S, samples := mu0, delta, h, 0.0, [];
    }

    /** Alarms at a step exactly when some window ending there has excess at least h. */
    method Observe(x: real) returns (alarm: bool)
      requires Valid()
      modifies this
      ensures Valid() && samples == old(samples) + [x] && alarm == (S >= h)
      ensures h > 0.0 ==> (alarm <==> SomeWindow(samples, mu0 + delta, h))
    {
      ghost var before := samples;
      samples := samples + [x];
      assert samples[..|before|] == before;
      S := Max(0.0, S + (x - mu0) - delta);
      if h > 0.0 {
        AlarmExactly(samples, mu0 + delta, h);
      }
      return S >= h;
    }

    method Alarmed() returns (alarm: bool)
      requires Valid()
      ensures alarm == (S >= h)
      ensures h > 0.0 ==> (alarm <==> SomeWindow(samples, mu0 + delta, h))
    {
      if h > 0.0 {
        AlarmExactly(samples, mu0 + delta, h);
      }
      return S >= h;
    }
  }

  // -------------------------------------------------------------- the anchor

  /** The first index of the first batch ever to lift S above zero, or -1. */
  function Anchor(xs: seq<real>, firsts: seq<nat>, k: real): int
    requires |xs| == |firsts|
  {
    if xs == [] then -1
    else
      var n := |xs| - 1;
      var before := Anchor(xs[..n], firsts[..n], k);
      if before < 0 && Level(xs, k) > 0.0 then firsts[n] else before
  }

  predicate Rising(firsts: seq<nat>) {
    forall i, j :: 0 <= i < j < |firsts| ==> firsts[i] <= firsts[j]
  }

  /** S has been positive from batch r to now; r opens the run when S was zero before it. */
  predicate PositiveSince(xs: seq<real>, k: real, r: nat)
    requires r <= |xs|
  {
    forall i :: r < i <= |xs| ==> Level(xs[..i], k) > 0.0
  }

  /** The recorded start is never later than the first batch of the current run of positive S. */
  lemma {:induction false} AnchorNotLater(xs: seq<real>, firsts: seq<nat>, k: real, r: nat)
    requires |xs| == |firsts| && r < |xs| && Rising(firsts) && PositiveSince(xs, k, r)
    ensures 0 <= Anchor(xs, firsts, k) <= firsts[r]
    decreases |xs|
  {
    var n := |xs| - 1;
    assert xs[..|xs|] == xs;
    assert Level(xs[..|xs|], k) > 0.0;
    if r < n {
      forall i | r < i <= n ensures Level(xs[..n][..i], k) > 0.0 {
        assert xs[..n][..i] == xs[..i];
      }
      AnchorNotLater(xs[..n], firsts[..n], k, r);
    } else {
      AnchorBounded(xs[..n], firsts[..n], k, firsts[n]);
    }
  }

  /** Batch j was the first to lift S above zero. */
  predicate FirstLift(xs: seq<real>, k: real, j: nat)
    requires j < |xs|
  {
    Level(xs[..j + 1], k) > 0.0 && forall i :: 0 <= i <= j ==> Level(xs[..i], k) == 0.0
  }

  /** It is recorded exactly: the start of the first batch ever to lift S, -1 while none has. */
  lemma {:induction false} AnchorExactly(xs: seq<real>, firsts: seq<nat>, k: real)
    requires |xs| == |firsts|
    ensures if exists j :: 0 <= j < |xs| && FirstLift(xs, k, j)
            then exists j :: 0 <= j < |xs| && FirstLift(xs, k, j) && Anchor(xs, firsts, k) == firsts[j]
            else Anchor(xs, firsts, k) == -1 && forall i :: 0 <= i <= |xs| ==> Level(xs[..i], k) == 0.0
  {
    assert xs[..|xs|] == xs;
    if xs != [] {
      var n := |xs| - 1;
      AnchorExactly(xs[..n], firsts[..n], k);
      assert forall i :: 0 <= i <= n ==> xs[..n][..i] == xs[..i];
      assert forall j :: 0 <= j < n ==> (FirstLift(xs[..n], k, j) <==> FirstLift(xs, k, j));
      if exists j :: 0 <= j < n && FirstLift(xs[..n], k, j) {
        var j :| 0 <= j < n && FirstLift(xs[..n], k, j) && Anchor(xs[..n], firsts[..n], k) == firsts[..n][j];
        assert FirstLift(xs, k, j);
      } else if Level(xs, k) > 0.0 {
        assert FirstLift(xs, k, n);
      }
    }
  }

  lemma {:induction false} AnchorBounded(xs: seq<real>, firsts: seq<nat>, k: real, top: nat)
    requires |xs| == |firsts| && forall i :: 0 <= i < |firsts| ==> firsts[i] <= top
    ensures -1 <= Anchor(xs, firsts, k) <= top
  {
    if xs != [] {
      AnchorBounded(xs[..|xs| - 1], firsts[..|xs| - 1], k, top);
    }
  }

  /** And the window behind an alarm can be taken to open with that run. */
  lemma {:induction false} RunIsWindow(xs: seq<real>, k: real, r: nat)
    requires r <= |xs| && Level(xs[..r], k) == 0.0 && PositiveSince(xs, k, r)
    ensures Level(xs, k) == Excess(xs, k, r)
    decreases |xs|
  {
    assert xs[..|xs|] == xs;
    if r < |xs| {
      var n := |xs| - 1;
      assert xs[..n][..r] == xs[..r];
      forall i | r < i <= n ensures Level(xs[..n][..i], k) > 0.0 {
        assert xs[..n][..i] == xs[..i];
      }
      RunIsWindow(xs[..n], k, r);
      assert Level(xs[..|xs|], k) > 0.0;
    }
  }

  // --------------------------------------------------------------- watchdogs

  /** The two count-based watchdogs, and the kinds that do nothing with a batch. */
  datatype Kind = IssuanceRate | GraphAnomaly | Stateless

  function Issues(events: Link): nat {
    if events == [] then 0
    else Issues(events[..|events| - 1]) + (if events[|events| - 1].body.typ == Issue then 1 else 0)
  }

  /** Issuances through another certificate; malformed payloads do not count. */
  function ViaEdges(events: Link): nat {
    if events == [] then 0
    else
      var f := IssueOf(events[|events| - 1].body);
      ViaEdges(events[..|events| - 1]) + (if f.Some? && f.value.via != "" then 1 else 0)
  }

  function Sample(kind: Kind, events: Link): real {
    if kind == IssuanceRate then Issues(events) as real else ViaEdges(events) as real
  }

  /** Event i counts for the kind: any ISSUE event, or one whose payload names an issuing certificate. */
  predicate CountsAt(kind: Kind, events: Link, i: int) {
    && 0 <= i < |events| && events[i].body.typ == Issue
    && (kind != IssuanceRate ==>
          AsIssue(events[i].body.payload).Some? && AsIssue(events[i].body.payload).value.via != "")
  }

  ghost function CountedSet(kind: Kind, events: Link): set<int> {
    set i | 0 <= i < |events| && CountsAt(kind, events, i)
  }

  lemma CountedSetGrows(kind: Kind, events: Link)
    requires events != []
    ensures CountedSet(kind, events) == CountedSet(kind, events[..|events| - 1])
                                        + if CountsAt(kind, events, |events| - 1) then {|events| - 1} else {}
  {
    var front := events[..|events| - 1];
    forall i | 0 <= i < |front| ensures CountsAt(kind, events, i) <==> CountsAt(kind, front, i) {
    }
  }

  /** A sample is the number of events of the batch that count. */
  lemma {:induction false} SampleCounts(kind: Kind, events: Link)
    ensures Sample(kind, events) == |CountedSet(kind, events)| as real
  {
    if events == [] {
      assert CountedSet(kind, events) == {};
    } else {
      SampleCounts(kind, events[..|events| - 1]);
      CountedSetGrows(kind, events);
    }
  }

  /** Low means bad; an alarm carries the rollback anchor. */
  datatype Score = Score(score: int, badIndex: Option<int>)

  class Watchdog {
    const kind: Kind
    const cusum: CUSUM
    var firstIdx: nat
    var badStart: int
    var cached: Option<Score>
    ghost var firsts: seq<nat>

    ghost predicate Valid()
      reads this, cusum
    {
      && cusum.Valid() && |firsts| == |cusum.samples|
      && badStart == Anchor(cusum.samples, firsts, cusum.mu0 + cusum.delta)
      && (cached.Some? ==> cached.value == Verdict())
    }

    /** The score the detector's present state calls for. */
    ghost function Verdict(): Score
      reads this, cusum
    {
      if kind != Stateless && cusum.S >= cusum.h then Score(0, Some(badStart)) else Score(100, None)
    }

    constructor (kind: Kind, mu0: real, delta: real, h: real)
      ensures Valid() && fresh(cusum) && this.kind == kind && firsts == [] && cusum.samples == []
      ensures cusum.mu0 == mu0 && cusum.delta == delta && cusum.h == h
    {
      this.kind := kind;
      cusum := new CUSUM(mu0, delta, h);
      firstIdx, badStart, cached, firsts := 0, -1, None, [];
    }

    /** One batch is one sample, and the anchor stays the start of the first batch that lifted S. */
    method ObserveBatch(events: Link, first: nat)
      requires Valid()
      modifies this, cusum
      ensures Valid() && cached == None && firstIdx == first
      ensures kind == Stateless ==> cusum.samples == old(cusum.samples) && firsts == old(firsts)
      ensures kind != Stateless ==> cusum.samples == old(cusum.samples) + [Sample(kind, events)]
      ensures kind != Stateless ==> firsts == old(firsts) + [first]
    {
      cached := None;
      firstIdx := first;
      var issues, edges := Count(events);
      if kind == Stateless {
        return;
      }
      ghost var xs, fs := cusum.samples, firsts;
      var x := if kind == IssuanceRate then issues as real else edges as real;
      var _ := cusum.Observe(x);
      firsts := firsts + [first];
      assert cusum.samples[..|xs|] == xs && firsts[..|fs|] == fs;
      ObserveShift(first);
    }

    method ObserveShift(first: nat)
      modifies this`badStart
      ensures badStart == if old(badStart) < 0 && cusum.S > 0.0 then first else old(badStart)
    {
      if cusum.S > 0.0 && badStart < 0 {
        badStart := first;
      }
    }

    method Count(events: Link) returns (issues: nat, edges: nat)
      ensures issues == Issues(events) && edges == ViaEdges(events)
    {
      issues, edges := 0, 0;
      for i := 0 to |events|
        invariant issues == Issues(events[..i]) && edges == ViaEdges(events[..i])
      {
        assert events[..i + 1][..i] == events[..i];
        var e := events[i].body;
        if e.typ == Issue {
          issues := issues + 1;
          var f := AsIssue(e.payload);
          if f.Some? && f.value.via != "" {
            edges := edges + 1;
          }
        }
      }
      assert events[..|events|] == events;
    }

    /** One score a batch: it alarms exactly when a window of batches ending now exceeds h, and
        then names a start no later than the current run of drift. */
    method GetScore() returns (s: Score)
      requires Valid()
      modifies this`cached
      ensures Valid() && s == old(Verdict()) && cached == Some(s)
      ensures kind != Stateless && cusum.S >= cusum.h ==>
                s == Score(0, Some(Anchor(cusum.samples, firsts, cusum.mu0 + cusum.delta)))
      ensures kind == Stateless || cusum.S < cusum.h ==> s == Score(100, None)
      ensures kind != Stateless && cusum.h > 0.0 ==>
                (s.score == 0 <==> SomeWindow(cusum.samples, cusum.mu0 + cusum.delta, cusum.h))
    {
      if cusum.h > 0.0 {
        AlarmExactly(cusum.samples, cusum.mu0 + cusum.delta, cusum.h);
      }
      if cached.Some? {
        return cached.value;
      }
      var alarm := false;
      if kind != Stateless {
        alarm := cusum.Alarmed();
      }
      s := if alarm then Score(0, Some(badStart)) else Score(100, None);
      cached := Some(s);
    }
  }
}
