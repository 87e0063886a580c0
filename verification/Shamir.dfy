// shamir.go: splitting a byte string into shards over a prime field and joining
// any k of them back. Random coefficients are inputs.

module Shamir {
  import opened Wrappers
  import opened PrimeField
  import opened Interpolation
  import opened BigEndian
  import opened Accumulate

  // ----------------------------------------------------------------- shards

  datatype Shard = Shard(x: int, y: int, len: int)

  predicate Splittable(p: nat, secret: seq<Byte>, n: int, k: int) {
    1 <= k <= n && SetBytes(secret) < p
  }

  function ShardAt(p: nat, secret: seq<Byte>, coeff: seq<int>, x: int): Shard
    requires p > 0
  {
    Shard(x, PolyValue(p, coeff, SetBytes(secret), x), |secret|)
  }

  /** The shards at x = 1..n; coeff holds the k - 1 random coefficients. */
  method ShamirSplit(p: nat, secret: seq<Byte>, n: int, k: int, coeff: seq<int>) returns (r: Result<seq<Shard>>)
    requires p > 0 && (1 <= k ==> |coeff| == k - 1)
    ensures r.Ok? <==> Splittable(p, secret, n, k)
    ensures r.Ok? <==> 1 <= k <= n && SetBytes(secret) < p
    ensures r.Ok? ==> r.value == seq(n, i requires 0 <= i < n => ShardAt(p, secret, coeff, i + 1))
  {
    if k > n || k < 1 {
      return Err("shamir: need 1 <= k <= n");
    }
    var s := SetBytes(secret);
    if s >= p {
      return Err("shamir: secret too large");
    }
    var shards := [];
    for x := 1 to n + 1
      invariant |shards| == x - 1
      invariant forall i :: 0 <= i < |shards| ==> shards[i] == ShardAt(p, secret, coeff, i + 1)
    {
      var y := EvalPoly(p, coeff, s, x);
      shards := shards + [Shard(x, y, |secret|)];
    }
    r := Ok(shards);
  }

  // ------------------------------------------------------------------- join

  /** A nil pointer among the shards is None. */
  type Shards = seq<Option<Shard>>

  ghost predicate AllPresent(pts: Shards) {
    forall i :: 0 <= i < |pts| ==> pts[i].Some?
  }

  ghost function Xs(pts: Shards): set<int> {
    set i | 0 <= i < |pts| && pts[i].Some? :: pts[i].value.x
  }

  ghost predicate DistinctXs(pts: Shards) {
    forall i, j :: 0 <= i < j < |pts| && pts[i].Some? && pts[j].Some? ==> pts[i].value.x != pts[j].value.x
  }

  /** Exactly the inputs that join: some shards, none nil, no two at one point of the field. */
  ghost predicate Joinable(p: nat, pts: Shards) {
    pts != [] && AllPresent(pts) && DistinctXs(pts) && Points(p, Xs(pts))
  }

  /** Shards join exactly when there are some, none is nil, and the indices of no two agree modulo the prime. */
  lemma JoinableExactly(p: nat, pts: Shards)
    ensures Joinable(p, pts) <==>
            && pts != [] && (forall i :: 0 <= i < |pts| ==> pts[i].Some?)
            && forall i, j :: 0 <= i < |pts| && 0 <= j < |pts| && i != j ==>
                                !Cong(p, pts[j].value.x - pts[i].value.x, 0)
  {
    if AllPresent(pts) && pts != [] {
      if Joinable(p, pts) {
        forall i, j | 0 <= i < |pts| && 0 <= j < |pts| && i != j
          ensures !Cong(p, pts[j].value.x - pts[i].value.x, 0)
        {
          assert pts[i].value.x in Xs(pts) && pts[j].value.x in Xs(pts);
        }
      } else if !DistinctXs(pts) {
        var i, j :| 0 <= i < j < |pts| && pts[i].value.x == pts[j].value.x;
        CongEqual(p, pts[j].value.x - pts[i].value.x, 0);
      } else {
        var x, y :| x in Xs(pts) && y in Xs(pts) && x != y && Cong(p, y - x, 0);
        var i :| 0 <= i < |pts| && pts[i].value.x == x;
        var j :| 0 <= j < |pts| && pts[j].value.x == y;
      }
    }
  }

  /** The y of the shard at x. */
  ghost function YAt(pts: Shards, x: int): int {
    if exists i :: 0 <= i < |pts| && pts[i].Some? && pts[i].value.x == x
    then var i :| 0 <= i < |pts| && pts[i].Some? && pts[i].value.x == x; pts[i].value.y
    else 0
  }

  ghost function JoinTerm(p: Prime, pts: Shards): int -> int
    requires Points(p, Xs(pts))
  {
    x => if x in Xs(pts) then Lambda(p, Xs(pts), x) * YAt(pts, x) else 0
  }

  /** The joined number, for any shards at all. */
  ghost function JoinValue(p: Prime, pts: Shards): (v: nat)
    requires Points(p, Xs(pts))
    ensures v < p
  {
    assert IsPrime(p);
    Sum(Xs(pts), JoinTerm(p, pts)) % p
  }

  /** num and den after multiplying in the shard at index m. */
  lemma FactorStep(p: nat, xs: set<int>, x: int, y: int, num: int, den: int, num': int, den': int)
    requires p > 0 && y !in xs && y != x
    requires num' == (num * y) % p && den' == (den * (y - x)) % p
    requires Cong(p, num, Product(xs - {x}, Identity())) && Cong(p, den, Product(xs - {x}, Minus(x)))
    ensures Cong(p, num', Product(xs + {y} - {x}, Identity()))
    ensures Cong(p, den', Product(xs + {y} - {x}, Minus(x)))
  {
    var all := xs + {y} - {x};
    assert all - {y} == xs - {x};
    ProductSplit(all, Identity(), y);
    ProductSplit(all, Minus(x), y);
    ScaledMod(p, num, y, Product(xs - {x}, Identity()));
    ScaledMod(p, den, y - x, Product(xs - {x}, Minus(x)));
  }

  method Factors(p: nat, pts: Shards, j: nat) returns (num: int, den: int)
    requires p > 0 && j < |pts| && AllPresent(pts) && DistinctXs(pts)
    ensures Cong(p, num, Numerator(Xs(pts), pts[j].value.x))
    ensures Cong(p, den, Denominator(Xs(pts), pts[j].value.x))
  {
    var x := pts[j].value.x;
    num, den := 1, 1;
    CongEqual(p, 1, 1);
    for m := 0 to |pts|
      invariant Cong(p, num, Product(Xs(pts[..m]) - {x}, Identity()))
      invariant Cong(p, den, Product(Xs(pts[..m]) - {x}, Minus(x)))
    {
      XsGrow(pts, m);
      if m == j {
        assert Xs(pts[..m + 1]) - {x} == Xs(pts[..m]) - {x};
        continue;
      }
      ghost var num0, den0 := num, den;
      var y := pts[m].value.x;
      num := (num * y) % p;
      den := (den * (y - x)) % p;
      FactorStep(p, Xs(pts[..m]), x, y, num0, den0, num, den);
    }
    assert pts[..|pts|] == pts;
  }

  lemma XsGrow(pts: Shards, m: nat)
    requires m < |pts| && AllPresent(pts) && DistinctXs(pts)
    ensures Xs(pts[..m + 1]) == Xs(pts[..m]) + {pts[m].value.x} && pts[m].value.x !in Xs(pts[..m])
  {
    var small, big := pts[..m], pts[..m + 1];
    forall i | 0 <= i < m ensures big[i].value.x in Xs(small) {
      assert small[i] == big[i];
    }
    forall x | x in Xs(small) ensures x in Xs(big) && x != pts[m].value.x {
      var i :| 0 <= i < m && small[i].value.x == x;
      assert big[i] == small[i];
    }
    assert big[m] == pts[m];
  }

  lemma AddTerm(p: nat, y: int, num: int, inv: int, l: int, ly: int, secret: int, sum: int, term: int, secret': int)
    requires p > 0 && Cong(p, num * inv, l) && ly == l * y && Cong(p, secret, sum)
    requires term == (y * num * inv) % p && secret' == (secret + term) % p
    ensures Cong(p, secret', ly + sum)
  {
    CongScale(p, y, num * inv, l);
    assert y * (num * inv) == y * num * inv && y * l == ly;
    CongMod(p, y * num * inv);
    CongTrans(p, term, y * (num * inv), ly);
    CongAdd(p, term, ly, secret, sum);
    CongMod(p, secret + term);
    CongTrans(p, secret', secret + term, ly + sum);
  }

  /** The sum over the shards before j + 1 is the one before j and the term of shard j. */
  lemma SumGrow(p: Prime, pts: Shards, j: nat)
    requires j < |pts| && AllPresent(pts) && DistinctXs(pts) && Points(p, Xs(pts))
    ensures pts[j].value.x in Xs(pts)
    ensures Sum(Xs(pts[..j + 1]), JoinTerm(p, pts))
         == Lambda(p, Xs(pts), pts[j].value.x) * pts[j].value.y + Sum(Xs(pts[..j]), JoinTerm(p, pts))
  {
    var x := pts[j].value.x;
    XsGrow(pts, j);
    assert pts[j].value.x in Xs(pts);
    assert YAt(pts, x) == pts[j].value.y;
    SumSplit(Xs(pts[..j + 1]), JoinTerm(p, pts), x);
    assert Xs(pts[..j + 1]) - {x} == Xs(pts[..j]);
  }

  /** secret after adding the term of the shard at index j. */
  lemma TermAdded(p: Prime, pts: Shards, j: nat, num: int, den: int, inv: int, secret: int, term: int, secret': int)
    requires j < |pts| && AllPresent(pts) && DistinctXs(pts) && Points(p, Xs(pts))
    requires Cong(p, num, Numerator(Xs(pts), pts[j].value.x)) && Cong(p, den, Denominator(Xs(pts), pts[j].value.x))
    requires Cong(p, den * inv, 1) && p > 0
    requires term == (pts[j].value.y * num * inv) % p && secret' == (secret + term) % p
    requires Cong(p, secret, Sum(Xs(pts[..j]), JoinTerm(p, pts)))
    ensures Cong(p, secret', Sum(Xs(pts[..j + 1]), JoinTerm(p, pts)))
  {
    SumGrow(p, pts, j);
    Coefficient(p, Xs(pts), pts[j].value.x, num, den, inv);
    var l, y := Lambda(p, Xs(pts), pts[j].value.x), pts[j].value.y;
    AddTerm(p, y, num, inv, l, l * y, secret, Sum(Xs(pts[..j]), JoinTerm(p, pts)), term, secret');
  }

  /** What the code computes as num * inv is the Lagrange coefficient. */
  lemma Coefficient(p: Prime, s: set<int>, x: int, num: int, den: int, inv: int)
    requires Points(p, s) && x in s
    requires Cong(p, num, Numerator(s, x)) && Cong(p, den, Denominator(s, x)) && Cong(p, den * inv, 1)
    ensures Cong(p, num * inv, Lambda(p, s, x))
  {
    CoefficientStep(p, num, den, inv, Numerator(s, x), Denominator(s, x));
    LambdaUnique(p, s, x, num * inv);
  }

  lemma CoefficientStep(p: int, num: int, den: int, inv: int, n: int, d: int)
    requires Cong(p, num, n) && Cong(p, den, d) && Cong(p, den * inv, 1)
    ensures Cong(p, (num * inv) * d, n)
  {
    CongSym(p, den, d);
    CongEqual(p, inv, inv);
    CongMul(p, d, den, inv, inv);
    CongTrans(p, d * inv, den * inv, 1);
    CongScale(p, num, d * inv, 1);
    Reassociate(num, d, inv);
    CongTrans(p, num * (d * inv), num, n);
  }

  /** The first loop of the join: every shard is there and no x repeats. */
  method CheckShards(pts: Shards) returns (err: Option<string>)
    ensures err.None? <==> AllPresent(pts) && DistinctXs(pts)
  {
    var seen: set<int> := {};
    for i := 0 to |pts|
      invariant forall k :: 0 <= k < i ==> pts[k].Some?
      invariant seen == set k | 0 <= k < i :: pts[k].value.x
      invariant forall k, m :: 0 <= k < m < i ==> pts[k].value.x != pts[m].value.x
    {
      if pts[i].None? {
        return Some("shamir: nil shard");
      }
      if pts[i].value.x in seen {
        return Some("shamir: duplicate x");
      }
      seen := seen + {pts[i].value.x};
    }
    err := None;
  }

  method ShamirJoin(p: Prime, pts: Shards) returns (r: Result<seq<Byte>>)
    ensures r.Ok? <==> Joinable(p, pts)
    ensures r.Ok? ==> r.value == Padded(Bytes(JoinValue(p, pts)), pts[0].value.len)
  {
    assert IsPrime(p);
    if |pts| == 0 {
      return Err("shamir: no shards");
    }
    var err := CheckShards(pts);
    if err.Some? {
      return Err(err.value);
    }
    var secret := 0;
    JoinStart(p, pts);
    for j := 0 to |pts|
      invariant Joined(p, pts, j, secret)
    {
      var next := JoinOne(p, pts, j, secret);
      if next.None? {
        return Err("shamir: singular denominator");
      }
      secret := next.value;
    }
    JoinEnd(p, pts, secret);
    r := Ok(Padded(Bytes(secret), pts[0].value.len));
  }

  /** One round of the outer loop; None when the denominator has no inverse. */
  method JoinOne(p: Prime, pts: Shards, j: nat, secret: int) returns (next: Option<int>)
    requires j < |pts| && AllPresent(pts) && DistinctXs(pts) && Joined(p, pts, j, secret)
    ensures next.None? ==> !Points(p, Xs(pts))
    ensures next.Some? ==> Joined(p, pts, j + 1, next.value)
  {
    assert IsPrime(p);
    var num, den := Factors(p, pts, j);
    var inv := SearchInverse(p, den, 0);
    if inv == p {
      Singular(p, pts, j, den);
      return None;
    }
    JoinRound(p, pts, j, num, den, inv, secret);
    var term := (pts[j].value.y * num * inv) % p;
    next := Some((secret + term) % p);
  }

  /** What the outer loop holds before shard j: no vanishing denominator so far, and the partial sum. */
  ghost predicate Joined(p: Prime, pts: Shards, j: nat, secret: int)
    requires j <= |pts| && AllPresent(pts)
  {
    && 0 <= secret < p
    && (forall k :: 0 <= k < j ==> !Cong(p, Denominator(Xs(pts), pts[k].value.x), 0))
    && (Points(p, Xs(pts)) ==> Cong(p, secret, Sum(Xs(pts[..j]), JoinTerm(p, pts))))
  }

  lemma JoinStart(p: Prime, pts: Shards)
    requires AllPresent(pts)
    ensures Joined(p, pts, 0, 0)
  {
    assert IsPrime(p);
    CongEqual(p, 0, 0);
  }

  lemma JoinRound(p: Prime, pts: Shards, j: nat, num: int, den: int, inv: nat, secret: int)
    requires j < |pts| && AllPresent(pts) && DistinctXs(pts) && Joined(p, pts, j, secret)
    requires Cong(p, num, Numerator(Xs(pts), pts[j].value.x)) && Cong(p, den, Denominator(Xs(pts), pts[j].value.x))
    requires p > 1 && inv == SearchInverse(p, den, 0) < p
    ensures Joined(p, pts, j + 1, (secret + (pts[j].value.y * num * inv) % p) % p)
  {
    Regular(p, den, inv, Denominator(Xs(pts), pts[j].value.x));
    if Points(p, Xs(pts)) {
      var term := (pts[j].value.y * num * inv) % p;
      TermAdded(p, pts, j, num, den, inv, secret, term, (secret + term) % p);
    }
  }

  lemma JoinEnd(p: Prime, pts: Shards, secret: int)
    requires AllPresent(pts) && Joined(p, pts, |pts|, secret)
    ensures Points(p, Xs(pts)) && secret == JoinValue(p, pts)
  {
    AllRegular(p, pts);
    assert pts[..|pts|] == pts;
    Settled(p, secret, Sum(Xs(pts), JoinTerm(p, pts)));
  }

  lemma Singular(p: Prime, pts: Shards, j: nat, den: int)
    requires j < |pts| && AllPresent(pts)
    requires p > 0 && SearchInverse(p, den, 0) == p && Cong(p, den, Denominator(Xs(pts), pts[j].value.x))
    ensures !Points(p, Xs(pts))
  {
    var x := pts[j].value.x;
    assert x in Xs(pts);
    if Points(p, Xs(pts)) {
      DenominatorNonzero(p, Xs(pts), x);
      if Cong(p, den, 0) {
        CongSym(p, den, Denominator(Xs(pts), x));
        CongTrans(p, Denominator(Xs(pts), x), den, 0);
      }
      InverseFound(p, den);
    }
  }

  lemma Regular(p: Prime, den: int, inv: nat, d: int)
    requires p > 1 && inv == SearchInverse(p, den, 0) < p && Cong(p, den, d)
    ensures Cong(p, den * inv, 1) && !Cong(p, d, 0)
  {
    OneIsItsResidue(p);
    CongResidue(p, den * inv, 1);
    if Cong(p, d, 0) {
      CongTrans(p, den, d, 0);
      NoInverse(p, den, inv);
    }
  }

  lemma AllRegular(p: Prime, pts: Shards)
    requires AllPresent(pts)
    requires forall k :: 0 <= k < |pts| ==> !Cong(p, Denominator(Xs(pts), pts[k].value.x), 0)
    ensures Points(p, Xs(pts))
  {
    var s := Xs(pts);
    forall x, y | x in s && y in s && x != y ensures !Cong(p, y - x, 0) {
      if Cong(p, y - x, 0) {
        DenominatorZero(p, s, x, y);
      }
    }
  }

  // -------------------------------------------------------------- round trip

  /** Shards i of the split of one secret, at points between 1 and p - 1 and no two the same. */
  ghost predicate ShardsOf(p: nat, secret: seq<Byte>, coeff: seq<int>, pts: Shards) {
    && p > 0 && AllPresent(pts) && DistinctXs(pts)
    && forall i :: 0 <= i < |pts| ==>
          1 <= pts[i].value.x < p && pts[i].value == ShardAt(p, secret, coeff, pts[i].value.x)
  }

  lemma JoinsPolynomial(p: Prime, secret: seq<Byte>, coeff: seq<int>, pts: Shards)
    requires ShardsOf(p, secret, coeff, pts) && Points(p, Xs(pts))
    ensures Cong(p, Sum(Xs(pts), JoinTerm(p, pts)), Interpolate(p, Xs(pts), [SetBytes(secret)] + coeff))
  {
    var s, f, xs := SetBytes(secret), [SetBytes(secret)] + coeff, Xs(pts);
    forall x | x in xs ensures Cong(p, JoinTerm(p, pts)(x), Weighted(p, xs, f)(x)) {
      var i :| 0 <= i < |pts| && pts[i].value.x == x;
      assert YAt(pts, x) == PolyValue(p, coeff, s, x);
      PolyValueCong(p, coeff, s, x);
      CongScale(p, Lambda(p, xs, x), PolyValue(p, coeff, s, x), Eval(f, x));
    }
    SumCong(p, xs, JoinTerm(p, pts), Weighted(p, xs, f));
  }

  /** Any k or more distinct shards, in any order, rejoin to the exact bytes of the secret. */
  lemma RoundTrip(p: Prime, secret: seq<Byte>, coeff: seq<int>, pts: Shards)
    requires SetBytes(secret) < p && ShardsOf(p, secret, coeff, pts) && |pts| >= |coeff| + 1
    ensures Joinable(p, pts) && Padded(Bytes(JoinValue(p, pts)), pts[0].value.len) == secret
  {
    var s, f, xs := SetBytes(secret), [SetBytes(secret)] + coeff, Xs(pts);
    ResiduesArePoints(p, xs);
    CountXs(pts, |pts|);
    assert pts[..|pts|] == pts;
    JoinsPolynomial(p, secret, coeff, pts);
    InterpolationAtZero(p, xs, f);
    assert Eval(f, 0) == s;
    CongTrans(p, Sum(xs, JoinTerm(p, pts)), Interpolate(p, xs, f), s);
    CongSym(p, Sum(xs, JoinTerm(p, pts)), s);
    Settled(p, s, Sum(xs, JoinTerm(p, pts)));
    BytesRoundTrip(secret);
  }

  lemma {:induction false} CountXs(pts: Shards, n: nat)
    requires n <= |pts| && AllPresent(pts) && DistinctXs(pts)
    ensures |Xs(pts[..n])| == n
    decreases n
  {
    if n > 0 {
      CountXs(pts, n - 1);
      XsGrow(pts, n - 1);
    }
  }
}
