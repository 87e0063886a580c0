// Key shares outside a signing session: the dealer split, the share file that must
// verify before it loads, member ids, and sums of commitment vectors (frost.go,
// shared with dkg.go and reshare.go).

module KeyShares {
  import opened Wrappers
  import opened Decimals
  import opened PrimeField
  import opened Interpolation
  import opened Accumulate
  import opened Group
  import opened Frost

  // ------------------------------------------------------------- member ids

  function MemberId(x: nat): Id {
    "M" + Decimal(x)
  }

  function ReadDigits(s: string): Option<nat> {
    if s == "" then Some(0)
    else
      var front, c := ReadDigits(s[..|s| - 1]), s[|s| - 1];
      if front.Some? && '0' <= c <= '9' then Some(front.value * 10 + (c as int - '0' as int)) else None
  }

  /** "M1".."Mn" to 1..n; anything else is 0. */
  function MemberX(id: Id): nat {
    if |id| < 2 || id[0] != 'M' || ReadDigits(id[1..]).None? then 0 else ReadDigits(id[1..]).value
  }

  lemma {:induction false} DigitsRoundTrip(n: nat)
    ensures |Decimal(n)| >= 1 && ReadDigits(Decimal(n)) == Some(n)
    decreases n
  {
    if n < 10 {
      assert Decimal(n)[..0] == "";
    } else {
      DigitsRoundTrip(n / 10);
      var s := Decimal(n);
      assert s[..|s| - 1] == Decimal(n / 10);
    }
  }

  lemma MemberRoundTrip(x: nat)
    ensures MemberX(MemberId(x)) == x
  {
    DigitsRoundTrip(x);
    assert MemberId(x)[1..] == Decimal(x);
  }

  /** Only "M" and digits read as an index, and leading zeros do not count. */
  lemma MemberXExactly(id: Id)
    ensures MemberX(id) > 0 ==> |id| >= 2 && id[0] == 'M' && forall i :: 1 <= i < |id| ==> '0' <= id[i] <= '9'
    ensures |id| >= 2 && id[0] == 'M' ==> MemberX("M0" + id[1..]) == MemberX(id)
  {
    if |id| >= 2 && id[0] == 'M' {
      DigitsOnly(id[1..]);
      LeadingZero(id[1..]);
      assert ("M0" + id[1..])[1..] == "0" + id[1..];
    }
  }

  lemma {:induction false} DigitsOnly(s: string)
    ensures ReadDigits(s).Some? <==> forall i :: 0 <= i < |s| ==> '0' <= s[i] <= '9'
  {
    if s != "" {
      DigitsOnly(s[..|s| - 1]);
    }
  }

  lemma {:induction false} LeadingZero(s: string)
    ensures ReadDigits("0" + s) == ReadDigits(s)
  {
    if s == "" {
      assert ReadDigits("0"[..0]) == Some(0);
    } else {
      LeadingZero(s[..|s| - 1]);
      assert ("0" + s)[..|s|] == "0" + s[..|s| - 1];
    }
  }

  // -------------------------------------------------------------- share files

  /** A loaded share: what a FrostSigner holds before its first commitment. */
  datatype KeyShare = KeyShare(id: Id, x: nat, share: nat, groupPub: nat, pubShare: nat,
                               vk: seq<nat>, globalVK: seq<(Id, seq<nat>)>)

  /** The on-disk form: any field may be missing or malformed; None is a key of the wrong length. */
  datatype ShareFile = ShareFile(id: Id, x: nat, y: Option<int>, groupPub: Option<nat>, pubShare: Option<nat>,
                                 vk: seq<PointWire>, globalVK: seq<(Id, seq<PointWire>)>)

  function Points32(points: seq<nat>): seq<PointWire> {
    seq(|points|, i requires 0 <= i < |points| => Enc(points[i]))
  }

  predicate Parses(q: nat, wires: seq<PointWire>) {
    forall i :: 0 <= i < |wires| ==> Decode(q, wires[i]).Some?
  }

  function Parsed(q: nat, wires: seq<PointWire>): seq<nat>
    requires Parses(q, wires)
  {
    seq(|wires|, i requires 0 <= i < |wires| => wires[i].p)
  }

  method ParsePoints(q: nat, wires: seq<PointWire>) returns (r: Result<seq<nat>>)
    ensures r.Ok? <==> Parses(q, wires)
    ensures r.Ok? ==> r.value == Parsed(q, wires)
  {
    var points := [];
    for i := 0 to |wires|
      invariant forall k :: 0 <= k < i ==> Decode(q, wires[k]).Some?
      invariant |points| == i && forall k :: 0 <= k < i ==> points[k] == wires[k].p
    {
      var p := Decode(q, wires[i]);
      if p.None? {
        return Err("frost: bad commitment point");
      }
      points := points + [p.value];
    }
    r := Ok(points);
  }

  /** The commitments a share file is checked against: its own, else the last global entry under its id. */
  function FileKey(f: ShareFile, n: nat): seq<PointWire>
    requires n <= |f.globalVK|
  {
    if n == 0 then f.vk
    else if f.globalVK[n - 1].0 == f.id then f.globalVK[n - 1].1
    else FileKey(f, n - 1)
  }

  function CheckKey(f: ShareFile): seq<PointWire> {
    if f.vk == [] then FileKey(f, |f.globalVK|) else f.vk
  }

  /** Exactly the files that load. */
  ghost predicate Loads(q: nat, f: ShareFile) {
    && f.y.Some? && 0 <= f.y.value < q && f.groupPub.Some? && f.pubShare.Some?
    && (CheckKey(f) != [] ==> Parses(q, CheckKey(f)) && OnCommitments(q, Parsed(q, CheckKey(f)), f.x, f.y.value))
  }

  method Signer(q: nat, f: ShareFile) returns (r: Result<FrostSigner>)
    requires q > 0
    ensures r.Ok? <==> Loads(q, f)
    ensures r.Ok? ==>
              var key := if f.vk != [] then f.vk else FileKey(f, |f.globalVK|);
              && 0 <= f.y.value < q
              && (key != [] ==> Parses(q, key) && OnCommitments(q, Parsed(q, key), f.x, f.y.value))
    ensures r.Ok? ==> fresh(r.value) && r.value.id == f.id && r.value.x == f.x && r.value.share == f.y.value
    ensures r.Ok? ==> r.value.groupPub == f.groupPub.value && r.value.pubShare == f.pubShare.value && !r.value.used
  {
    if f.y.None? || f.y.value >= q || f.y.value < 0 {
      return Err("frost: bad share value");
    }
    if f.groupPub.None? || f.pubShare.None? {
      return Err("frost: bad key lengths");
    }
    var vk := f.vk;
    if |vk| == 0 {
      for i := 0 to |f.globalVK|
        invariant vk == FileKey(f, i)
      {
        if f.globalVK[i].0 == f.id {
          vk := f.globalVK[i].1;
        }
      }
    }
    if |vk| > 0 {
      var pts := ParsePoints(q, vk);
      if pts.Err? {
        return Err(pts.reason);
      }
      var ok := ShareVerifies(q, pts.value, f.x, f.y.value);
      if !ok {
        return Err("frost: share fails commitment verification");
      }
    }
    var signer := new FrostSigner(f.id, f.x, f.y.value, f.groupPub.value, f.pubShare.value);
    r := Ok(signer);
  }

  /** Commitments without an own vector: those of the last global entry under the file's id, none without one. */
  lemma {:induction false} FileKeyIsLast(f: ShareFile, n: nat)
    requires n <= |f.globalVK| && f.vk == []
    ensures (forall i :: 0 <= i < n ==> f.globalVK[i].0 != f.id) ==> FileKey(f, n) == []
    ensures (exists i :: 0 <= i < n && f.globalVK[i].0 == f.id) ==>
              exists i :: 0 <= i < n && f.globalVK[i] == (f.id, FileKey(f, n))
                          && forall j :: i < j < n ==> f.globalVK[j].0 != f.id
  {
    if n > 0 {
      FileKeyIsLast(f, n - 1);
      if f.globalVK[n - 1].0 == f.id {
        assert f.globalVK[n - 1] == (f.id, FileKey(f, n));
      }
    }
  }

  /** A file that names commitments loads under one share alone. */
  lemma OneShareLoads(q: nat, f: ShareFile, y: int)
    requires q > 0 && Loads(q, f) && CheckKey(f) != []
    ensures Loads(q, f.(y := Some(y))) <==> Some(y) == f.y
  {
    var g := f.(y := Some(y));
    SameFileKey(f, g, |f.globalVK|);
    if Loads(q, g) {
      var value := Eval(Parsed(q, CheckKey(f)), f.x);
      CongSym(q, value, f.y.value);
      CongTrans(q, f.y.value, value, y);
      CongSmall(q, f.y.value, y);
    }
  }

  lemma {:induction false} SameFileKey(f: ShareFile, g: ShareFile, n: nat)
    requires n <= |f.globalVK| && g.id == f.id && g.vk == f.vk && g.globalVK == f.globalVK
    ensures FileKey(f, n) == FileKey(g, n)
  {
    if n > 0 {
      SameFileKey(f, g, n - 1);
    }
  }

  /** The file a loaded share is written to. */
  function FileOf(s: KeyShare): ShareFile {
    ShareFile(s.id, s.x, Some(s.share), Some(s.groupPub), Some(s.pubShare), Points32(s.vk),
              seq(|s.globalVK|, i requires 0 <= i < |s.globalVK| => (s.globalVK[i].0, Points32(s.globalVK[i].1))))
  }

  lemma PointsRoundTrip(q: nat, points: seq<nat>)
    requires forall i :: 0 <= i < |points| ==> points[i] < q
    ensures Parses(q, Points32(points)) && Parsed(q, Points32(points)) == points
  {
  }

  // ------------------------------------------------------------- dealer mode

  /** What the dealer hands participant x. */
  ghost predicate DealtTo(q: nat, a: nat, coeff: seq<nat>, x: nat, s: KeyShare)
    requires q > 0
  {
    && s.id == MemberId(x) && s.x == x && s.share == PolyValue(q, coeff, a, x) && s.globalVK == []
    && s.groupPub == Scale(q, a, 1) && s.pubShare == Scale(q, s.share, 1) && s.vk == CommitTo(q, [a] + coeff)
  }

  method FrostSplit(q: nat, a: nat, n: int, t: int, coeff: seq<nat>) returns (r: Result<seq<KeyShare>>)
    requires q > 0 && (1 <= t ==> |coeff| == t - 1)
    ensures r.Ok? <==> 1 <= t <= n
    ensures r.Ok? ==> |r.value| == n && forall i :: 0 <= i < n ==> DealtTo(q, a, coeff, i + 1, r.value[i])
    ensures r.Ok? ==> forall i :: 0 <= i < n ==>
              var s := r.value[i];
              && s.id == MemberId(i + 1) && s.x == i + 1 && s.share == PolyValue(q, coeff, a, i + 1)
              && s.groupPub == Scale(q, a, 1) && s.pubShare == Scale(q, s.share, 1)
              && s.vk == CommitTo(q, [a] + coeff) && s.globalVK == []
  {
    if t > n || t < 1 {
      return Err("frost: need 1 <= t <= n");
    }
    var commit := CommitCoefficients(q, a, coeff);
    var shares := [];
    for x := 1 to n + 1
      invariant |shares| == x - 1
      invariant forall i :: 0 <= i < |shares| ==> DealtTo(q, a, coeff, i + 1, shares[i])
    {
      var y := EvalPoly(q, coeff, a, x);
      NonNegative(q, coeff, a, x);
      var p := ScalarMult(q, y, 1);
      shares := shares + [KeyShare(MemberId(x), x, y, commit[0], p, commit, [])];
    }
    r := Ok(shares);
  }

  lemma NonNegative(q: nat, coeff: seq<int>, a: nat, x: int)
    requires q > 0
    ensures PolyValue(q, coeff, a, x) >= 0
  {
  }

  /** A dealt share's file loads exactly when the share is reduced: always for t >= 2, and for t = 1
      when the clamped seed scalar is below the group order. */
  lemma DealtLoads(q: nat, a: nat, coeff: seq<nat>, x: nat, s: KeyShare)
    requires q > 0 && DealtTo(q, a, coeff, x, s)
    ensures Loads(q, FileOf(s)) <==> coeff != [] || a < q
  {
    var f := [a] + coeff;
    forall i | 0 <= i < |f| ensures CommitTo(q, f)[i] < q {}
    PointsRoundTrip(q, s.vk);
    HonestShareVerifies(q, coeff, a, x);
    assert FileOf(s).vk != [];
  }

  /** Signer id of the session holds a dealt share with a positive index below the group order. */
  ghost predicate DealtSigner(q: nat, a: nat, coeff: seq<nat>, s: Session, id: Id, share: KeyShare)
    requires q > 0 && id in s.pubs
  {
    && DealtTo(q, a, coeff, share.x, share) && 1 <= share.x < q && share.id == id
    && s.groupPub == share.groupPub && s.pubs[id] == share.pubShare && XOf(s.xs, id) == share.x
  }

  lemma DealtOnPolynomial(q: nat, a: nat, coeff: seq<nat>, s: Session, id: Id, share: KeyShare)
    requires q > 0 && id in s.pubs && DealtSigner(q, a, coeff, s, id, share)
    ensures OnPolynomial(q, [a] + coeff, s, id)
  {
    OwnPoint(q, share.share);
    PolyValueCong(q, coeff, a, share.x);
    CongTrans(q, s.pubs[id], share.share, Eval([a] + coeff, share.x));
  }

  lemma DealtPoints(q: nat, a: nat, coeff: seq<nat>, s: Session, shares: map<Id, KeyShare>)
    requires q > 0 && s.pubs.Keys <= shares.Keys
    requires forall id :: id in s.pubs ==> DealtSigner(q, a, coeff, s, id, shares[id])
    ensures DistinctPoints(q, s.pubs.Keys, s.xs)
  {
    forall i, j | i in s.pubs && j in s.pubs && i != j ensures !Cong(q, XOf(s.xs, j) - XOf(s.xs, i), 0) {
      assert DealtSigner(q, a, coeff, s, i, shares[i]) && DealtSigner(q, a, coeff, s, j, shares[j]);
      var x: int, y: int := shares[i].x, shares[j].x;
      assert MemberId(shares[i].x) == i && MemberId(shares[j].x) == j;
      if Cong(q, y - x, 0) {
        CongEqual(q, x, x);
        CongAdd(q, y - x, 0, x, x);
        CongSmall(q, y, x);
        assert false;
      }
    }
  }

  /** Any t dealt shares are those of the dealer's polynomial, with the dealer's key. */
  lemma DealtShares(q: Prime, a: nat, coeff: seq<nat>, s: Session, shares: map<Id, KeyShare>)
    requires q > 0 && s.pubs.Keys <= shares.Keys && |s.pubs| >= |coeff| + 1
    requires forall id :: id in s.pubs ==> DealtSigner(q, a, coeff, s, id, shares[id])
    ensures SharesOf(q, [a] + coeff, s)
  {
    DealtPoints(q, a, coeff, s, shares);
    forall id | id in s.pubs ensures OnPolynomial(q, [a] + coeff, s, id) {
      DealtOnPolynomial(q, a, coeff, s, id, shares[id]);
    }
    assert s.pubs != map[] by {
      assert |s.pubs| > 0;
    }
    var id :| id in s.pubs;
    assert DealtSigner(q, a, coeff, s, id, shares[id]);
    assert Eval([a] + coeff, 0) == a;
    OwnPoint(q, a);
  }

  /** Any t of the shares a dealer splits a key into sign under that key. */
  lemma DealtMembersSign(q: Prime, h: Hashes, a: nat, coeff: seq<nat>, s: Session, shares: map<Id, KeyShare>, z: nat)
    requires q > 0 && s.pubs.Keys <= shares.Keys && |s.pubs| >= |coeff| + 1
    requires forall id :: id in s.pubs ==> DealtSigner(q, a, coeff, s, id, shares[id])
    requires s.pubs.Keys == s.commits.Keys == s.shares.Keys
    requires forall id :: id in s.shares ==> Verified(q, h, s, id, s.shares[id])
    requires z == Sum(s.shares.Keys, ShareAt(s.shares)) % q
    ensures Signs(q, h, s, z)
  {
    DealtShares(q, a, coeff, s, shares);
    AggregateSigns(q, h, [a] + coeff, s, z);
  }

  // ------------------------------------------------- sums of commitment vectors

  /** id |-> entry j of its vector, 0 where the vector is shorter. */
  ghost function Coord(g: map<Id, seq<int>>, j: nat): Id -> int {
    id => if id in g && j < |g[id]| then g[id][j] else 0
  }

  ghost function EvalsAt(g: map<Id, seq<int>>, x: int): Id -> int {
    id => if id in g then Eval(g[id], x) else 0
  }

  /** The entrywise sum of the vectors of keys, read as one polynomial with t coefficients. */
  ghost function SumOfVectors(keys: set<Id>, g: map<Id, seq<int>>, t: nat): (f: seq<int>)
    ensures |f| == t
  {
    seq(t, j requires 0 <= j < t => Sum(keys, Coord(g, j)))
  }

  ghost function Tails(keys: set<Id>, g: map<Id, seq<int>>): map<Id, seq<int>>
    requires keys <= g.Keys
  {
    map id | id in keys :: if g[id] == [] then [] else g[id][1..]
  }

  /** Summing vectors is summing polynomials. */
  lemma {:induction false} EvalOfSum(keys: set<Id>, g: map<Id, seq<int>>, t: nat, x: int)
    requires keys <= g.Keys && forall id :: id in keys ==> |g[id]| <= t
    ensures Eval(SumOfVectors(keys, g, t), x) == Sum(keys, EvalsAt(g, x))
    decreases t
  {
    var f := SumOfVectors(keys, g, t);
    var zero := (id: Id) => 0;
    if t == 0 {
      forall id | id in keys ensures LinearAt(0, id, EvalsAt(g, x), zero, zero, 0, 0) {
        CongEqual(0, EvalsAt(g, x)(id), 0);
      }
      SumLinear(0, keys, EvalsAt(g, x), zero, zero, 0, 0);
      ExactlyEqual(Sum(keys, EvalsAt(g, x)), 0);
    } else {
      var h := Tails(keys, g);
      EvalOfSum(keys, h, t - 1, x);
      forall j | 0 <= j < t - 1 ensures f[1..][j] == SumOfVectors(keys, h, t - 1)[j] {
        SumEqual(keys, Coord(g, j + 1), Coord(h, j));
      }
      assert f[1..] == SumOfVectors(keys, h, t - 1);
      forall id | id in keys ensures LinearAt(0, id, EvalsAt(g, x), Coord(g, 0), EvalsAt(h, x), 1, x) {
        CongEqual(0, EvalsAt(g, x)(id), 1 * Coord(g, 0)(id) + x * EvalsAt(h, x)(id));
      }
      SumLinear(0, keys, EvalsAt(g, x), Coord(g, 0), EvalsAt(h, x), 1, x);
      ExactlyEqual(Sum(keys, EvalsAt(g, x)), 1 * Sum(keys, Coord(g, 0)) + x * Sum(keys, EvalsAt(h, x)));
    }
  }

  lemma ExactlyEqual(a: int, b: int)
    requires Cong(0, a, b)
    ensures a == b
  {
    var k := CongWitness(0, a, b);
    assert k * 0 == 0;
  }

  /** out is, entry by entry, the sum of the vectors of keys as points. */
  ghost predicate VectorSum(q: nat, out: seq<nat>, keys: set<Id>, g: map<Id, seq<int>>) {
    forall j :: 0 <= j < |out| ==> out[j] < q && EntrySum(q, out[j], keys, g, j)
  }

  ghost predicate EntrySum(q: nat, p: nat, keys: set<Id>, g: map<Id, seq<int>>, j: nat) {
    Cong(q, p, Sum(keys, Coord(g, j)))
  }

  lemma {:induction false} EvalCong(q: int, a: seq<int>, b: seq<int>, x: int)
    requires |a| == |b| && forall j :: 0 <= j < |a| ==> Cong(q, a[j], b[j])
    ensures Cong(q, Eval(a, x), Eval(b, x))
  {
    if a == [] {
      CongEqual(q, 0, 0);
    } else {
      EvalCong(q, a[1..], b[1..], x);
      CongScale(q, x, Eval(a[1..], x), Eval(b[1..], x));
      CongAdd(q, a[0], b[0], x * Eval(a[1..], x), x * Eval(b[1..], x));
    }
  }

  lemma EvalOfVectorSum(q: nat, out: seq<nat>, keys: set<Id>, g: map<Id, seq<int>>, x: int)
    requires VectorSum(q, out, keys, g) && keys <= g.Keys
    requires forall id :: id in keys ==> |g[id]| <= |out|
    ensures Cong(q, Eval(out, x), Sum(keys, EvalsAt(g, x)))
  {
    var f := SumOfVectors(keys, g, |out|);
    forall j | 0 <= j < |out| ensures Cong(q, out[j], f[j]) {
      assert EntrySum(q, out[j], keys, g, j);
    }
    EvalCong(q, out, f, x);
    EvalOfSum(keys, g, |out|, x);
  }

  /** out[k] = pointAdd(out[k], pts[k]) for every k. */
  method AddVector(q: nat, out: seq<nat>, pts: seq<nat>, ghost keys: set<Id>, ghost g: map<Id, seq<int>>, ghost id: Id)
      returns (sum: seq<nat>)
    requires q > 0 && |pts| <= |out| && VectorSum(q, out, keys, g)
    requires id in g && g[id] == pts && id !in keys
    ensures |sum| == |out| && VectorSum(q, sum, keys + {id}, g)
  {
    sum := out;
    for k := 0 to |pts|
      invariant |sum| == |out|
      invariant forall j :: k <= j < |out| ==> sum[j] == out[j]
      invariant forall j :: 0 <= j < k ==> sum[j] < q && EntrySum(q, sum[j], keys + {id}, g, j)
    {
      AddEntry(q, out[k], pts[k], keys, g, id, k);
      sum := sum[k := PointAdd(q, sum[k], pts[k])];
    }
    forall j | |pts| <= j < |out| ensures EntrySum(q, out[j], keys + {id}, g, j) {
      assert EntrySum(q, out[j], keys, g, j);
      SumSplit(keys + {id}, Coord(g, j), id);
      assert keys + {id} - {id} == keys;
    }
  }

  lemma AddEntry(q: nat, p: nat, c: nat, keys: set<Id>, g: map<Id, seq<int>>, id: Id, j: nat)
    requires q > 0 && EntrySum(q, p, keys, g, j) && id in g && j < |g[id]| && g[id][j] == c && id !in keys
    ensures EntrySum(q, PointAdd(q, p, c), keys + {id}, g, j)
  {
    CongEqual(q, c, c);
    SumOfPoints(q, p, c, Sum(keys, Coord(g, j)), c);
    SumSplit(keys + {id}, Coord(g, j), id);
    assert keys + {id} - {id} == keys;
  }

  /** A first vector, after empty ones alone, is the sum so far. */
  lemma FirstVector(q: nat, pts: seq<nat>, done: set<Id>, g: map<Id, seq<int>>, id: Id)
    requires id in g && id !in done && done <= g.Keys && g[id] == pts && forall j :: 0 <= j < |pts| ==> pts[j] < q
    requires forall k :: k in done ==> g[k] == []
    ensures VectorSum(q, pts, done + {id}, g)
  {
    forall j | 0 <= j < |pts| ensures EntrySum(q, pts[j], done + {id}, g, j) {
      SumSplit(done + {id}, Coord(g, j), id);
      assert done + {id} - {id} == done;
      ZeroSum(done, Coord(g, j));
      CongEqual(q, pts[j], Sum(done + {id}, Coord(g, j)));
    }
  }

  /** The sum of commitment vectors is one vector, as far as it goes. */
  lemma VectorSumUnique(q: nat, a: seq<nat>, b: seq<nat>, keys: set<Id>, g: map<Id, seq<int>>)
    requires q > 0 && |a| == |b| && VectorSum(q, a, keys, g) && VectorSum(q, b, keys, g)
    ensures a == b
  {
    forall j | 0 <= j < |a| ensures a[j] == b[j] {
      assert EntrySum(q, a[j], keys, g, j) && EntrySum(q, b[j], keys, g, j);
      Settled(q, a[j], Sum(keys, Coord(g, j)));
      Settled(q, b[j], Sum(keys, Coord(g, j)));
    }
  }

  /** Verified pieces add up: the summed share verifies against the summed commitments. */
  lemma SharesAddUp(q: nat, out: seq<nat>, keys: set<Id>, g: map<Id, seq<int>>, shares: Id -> int, x: int, share: int)
    requires VectorSum(q, out, keys, g) && keys <= g.Keys
    requires forall id :: id in keys ==> |g[id]| <= |out|
    requires forall id :: id in keys ==> OnVector(q, g, id, x, shares(id))
    requires Cong(q, share, Sum(keys, shares))
    ensures OnCommitments(q, out, x, share)
  {
    EvalOfVectorSum(q, out, keys, g, x);
    forall id | id in keys ensures Cong(q, EvalsAt(g, x)(id), shares(id)) {
      assert OnVector(q, g, id, x, shares(id));
    }
    SumCong(q, keys, EvalsAt(g, x), shares);
    CongTrans(q, Eval(out, x), Sum(keys, EvalsAt(g, x)), Sum(keys, shares));
    CongSym(q, share, Sum(keys, shares));
    CongTrans(q, Eval(out, x), Sum(keys, shares), share);
  }

  ghost predicate OnVector(q: nat, g: map<Id, seq<int>>, id: Id, x: int, share: int)
    requires id in g
  {
    Cong(q, Eval(g[id], x), share)
  }
}
