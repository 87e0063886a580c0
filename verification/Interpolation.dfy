// Polynomials over the integers read modulo a prime, and the one theorem that
// Shamir reconstruction, FROST signing and resharing all rest on: Lagrange
// interpolation at zero over any set of distinct points.

module Interpolation {
  import opened PrimeField

  /** The polynomial with coefficients f, lowest degree first. */
  function Eval(f: seq<int>, x: int): int {
    if f == [] then 0 else f[0] + x * Eval(f[1..], x)
  }

  /** Synthetic division by x - b. */
  function Quotient(f: seq<int>, b: int): (g: seq<int>)
    ensures |g| == if f == [] then 0 else |f| - 1
  {
    if |f| <= 1 then [] else [Eval(f[1..], b)] + Quotient(f[1..], b)
  }

  /** f(x) = f(b) + (x - b) * Quotient(f, b)(x). */
  lemma {:induction false} Division(f: seq<int>, b: int, x: int)
    ensures Eval(f, x) == Eval(f, b) + (x - b) * Eval(Quotient(f, b), x)
  {
    if |f| > 1 {
      var h := f[1..];
      var hb, k := Eval(h, b), Eval(Quotient(h, b), x);
      Division(h, b, x);
      assert Quotient(f, b)[1..] == Quotient(h, b);
      assert Eval(Quotient(f, b), x) == hb + x * k;
      calc {
        Eval(f, b) + (x - b) * (hb + x * k);
        f[0] + b * hb + (x - b) * (hb + x * k);
        { DivisionStep(b, x, hb, k); }
        f[0] + x * (hb + (x - b) * k);
        Eval(f, x);
      }
    } else if |f| == 1 {
      assert f[1..] == [];
    }
  }

  lemma DivisionStep(b: int, x: int, hb: int, k: int)
    ensures b * hb + (x - b) * (hb + x * k) == x * (hb + (x - b) * k)
  {
    assert (x - b) * (hb + x * k) == (x - b) * hb + (x - b) * (x * k);
    assert x * ((x - b) * k) == (x - b) * (x * k);
    assert (x - b) * hb == x * hb - b * hb;
  }

  // ------------------------------------------------------ Lagrange coefficients

  function Identity(): int -> int {
    x => x
  }

  function Minus(x: int): int -> int {
    y => y - x
  }

  ghost function Numerator(s: set<int>, x: int): int {
    Product(s - {x}, Identity())
  }

  ghost function Denominator(s: set<int>, x: int): int {
    Product(s - {x}, Minus(x))
  }

  /** Members of s are distinct modulo q. */
  ghost predicate Points(q: int, s: set<int>) {
    forall x, y :: x in s && y in s && x != y ==> !Cong(q, y - x, 0)
  }

  /** Distinct residues are such a set. */
  lemma ResiduesArePoints(q: int, s: set<int>)
    requires forall x :: x in s ==> 0 <= x < q
    ensures Points(q, s)
  {
    forall x, y | x in s && y in s && x != y ensures !Cong(q, y - x, 0) {
      if Cong(q, y - x, 0) {
        var k := CongWitness(q, y - x, 0);
        CongBy(q, y, x, k);
        CongSmall(q, y, x);
      }
    }
  }

  lemma DenominatorNonzero(q: Prime, s: set<int>, x: int)
    requires Points(q, s) && x in s
    ensures !Cong(q, Denominator(s, x), 0)
  {
    ProductNonzero(q, s - {x}, Minus(x));
  }

  /** Conversely, two members that agree modulo q make a denominator vanish. */
  lemma DenominatorZero(q: Prime, s: set<int>, x: int, y: int)
    requires x in s && y in s && x != y && Cong(q, y - x, 0)
    ensures Cong(q, Denominator(s, x), 0)
  {
    ProductSplit(s - {x}, Minus(x), y);
    var rest := Product(s - {x} - {y}, Minus(x));
    CongScale(q, rest, y - x, 0);
    assert rest * (y - x) == (y - x) * rest;
  }

  /** The coefficient of the value at x when interpolating at zero over s. */
  ghost function Lambda(q: Prime, s: set<int>, x: int): (l: int)
    requires Points(q, s) && x in s
    ensures Cong(q, l * Denominator(s, x), Numerator(s, x))
  {
    LambdaExists(q, s, x);
    var l :| Cong(q, l * Denominator(s, x), Numerator(s, x)) && 0 <= l < q;
    l
  }

  lemma LambdaExists(q: Prime, s: set<int>, x: int)
    requires Points(q, s) && x in s
    ensures exists l :: Cong(q, l * Denominator(s, x), Numerator(s, x)) && 0 <= l < q
  {
    assert IsPrime(q);
    DenominatorNonzero(q, s, x);
    var i := Inverse(q, Denominator(s, x));
    var l := QuotientMod(q, Denominator(s, x), Numerator(s, x), i);
  }

  /** n * i reduced solves l * d = n when i inverts d. */
  lemma QuotientMod(q: int, d: int, n: int, i: int) returns (l: int)
    requires q > 0 && Cong(q, d * i, 1)
    ensures l == (n * i) % q && 0 <= l < q && Cong(q, l * d, n)
  {
    l := (n * i) % q;
    CongMod(q, n * i);
    CongScale(q, d, l, n * i);
    CongScale(q, n, d * i, 1);
    assert d * (n * i) == n * (d * i) && d * l == l * d;
    CongTrans(q, l * d, n * (d * i), n);
  }

  /** Any number that solves the defining congruence is the coefficient. */
  lemma LambdaUnique(q: Prime, s: set<int>, x: int, l: int)
    requires Points(q, s) && x in s
    requires Cong(q, l * Denominator(s, x), Numerator(s, x))
    ensures Cong(q, l, Lambda(q, s, x))
  {
    var d, n, m := Denominator(s, x), Numerator(s, x), Lambda(q, s, x);
    DenominatorNonzero(q, s, x);
    CongSym(q, m * d, n);
    CongTrans(q, l * d, n, m * d);
    assert l * d == d * l && m * d == d * m;
    Cancel(q, d, l, m);
  }

  lemma RemoveStep(q: Prime, d: int, l: int, m: int, n: int, b: int, y: int)
    requires !Cong(q, d, 0) && Cong(q, l * (y * d), b * n) && Cong(q, m * d, n)
    ensures Cong(q, l * y, b * m)
  {
    CongScale(q, b, m * d, n);
    CongSym(q, b * (m * d), b * n);
    CongTrans(q, l * (y * d), b * n, b * (m * d));
    RotateFactors(l, y, d);
    RotateFactors(b, m, d);
    Cancel(q, d, l * y, b * m);
  }

  /** Leaving point b out of the set: lambda(s, x) * (b - x) = b * lambda(s - {b}, x). */
  lemma LambdaRemove(q: Prime, s: set<int>, b: int, x: int)
    requires Points(q, s) && x in s && b in s && x != b
    ensures Cong(q, Lambda(q, s, x) * (b - x), b * Lambda(q, s - {b}, x))
  {
    var t := s - {b};
    assert s - {x} - {b} == t - {x};
    ProductSplit(s - {x}, Identity(), b);
    ProductSplit(s - {x}, Minus(x), b);
    DenominatorNonzero(q, t, x);
    RemoveStep(q, Denominator(t, x), Lambda(q, s, x), Lambda(q, t, x), Numerator(t, x), b, b - x);
  }

  // --------------------------------------------------- interpolation at zero

  /** x |-> lambda(s, x) * f(x), the terms that reconstruction sums. */
  ghost function Weighted(q: Prime, s: set<int>, f: seq<int>): int -> int
    requires Points(q, s)
  {
    x => if x in s then Lambda(q, s, x) * Eval(f, x) else 0
  }

  ghost function Interpolate(q: Prime, s: set<int>, f: seq<int>): int
    requires Points(q, s)
  {
    Sum(s, Weighted(q, s, f))
  }

  lemma TermStep(q: int, l: int, m: int, c: int, v: int, b: int, x: int)
    requires Cong(q, l * (b - x), b * m)
    ensures Cong(q, l * (c + (x - b) * v), c * l + (-b) * (m * v))
  {
    var k := CongWitness(q, l * (b - x), b * m);
    calc {
      l * (c + (x - b) * v) - (c * l + (-b) * (m * v));
      { assert l * (c + (x - b) * v) == l * c + l * ((x - b) * v); }
      l * ((x - b) * v) + b * (m * v);
      { assert l * ((x - b) * v) == -(v * (l * (b - x))); }
      { assert b * (m * v) == v * (b * m); }
      -(v * (l * (b - x))) + v * (b * m);
      { Distribute(v, l * (b - x), b * m); }
      -(v * (k * q));
      (-v * k) * q;
    }
    CongBy(q, l * (c + (x - b) * v), c * l + (-b) * (m * v), -v * k);
  }

  lemma WeightedTerm(q: Prime, s: set<int>, b: int, c: int, f: seq<int>, g: seq<int>, x: int)
    requires Points(q, s) && b in s && x in s && x != b
    requires Eval(f, x) == c + (x - b) * Eval(g, x)
    ensures LinearAt(q, x, Weighted(q, s, f), Weighted(q, s, [1]), Weighted(q, s - {b}, g), c, -b)
  {
    LambdaRemove(q, s, b, x);
    One(x);
    TermStep(q, Lambda(q, s, x), Lambda(q, s - {b}, x), c, Eval(g, x), b, x);
  }

  lemma One(x: int)
    ensures Eval([1], x) == 1
  {
    assert [1][1..] == [];
  }

  lemma ReduceStep(q: int, c: int, b: int, lc: int, l: int, fs: int, os: int, rest: int, total: int, w: int)
    requires lc == l * c && total == lc + fs && w == l + os
    requires Cong(q, fs, c * os + (-b) * rest)
    ensures Cong(q, total, c * w - b * rest)
  {
    var k := CongWitness(q, fs, c * os + (-b) * rest);
    Distribute(c, l, os);
    CongBy(q, total, c * w - b * rest, k);
  }

  lemma SplitAt(q: Prime, s: set<int>, b: int, f: seq<int>, c: int, lc: int)
    requires Points(q, s) && b in s && Eval(f, b) == c && lc == Lambda(q, s, b) * c
    ensures Interpolate(q, s, f) == lc + Sum(s - {b}, Weighted(q, s, f))
  {
    SumSplit(s, Weighted(q, s, f), b);
  }

  lemma AddPoint(q: Prime, s: set<int>, b: int, c: int, f: seq<int>, rest: int)
    requires Points(q, s) && b in s && Eval(f, b) == c
    requires Cong(q, Sum(s - {b}, Weighted(q, s, f)), c * Sum(s - {b}, Weighted(q, s, [1])) + (-b) * rest)
    ensures Cong(q, Interpolate(q, s, f), c * Interpolate(q, s, [1]) - b * rest)
  {
    var l := Lambda(q, s, b);
    One(b);
    SplitAt(q, s, b, f, c, l * c);
    SplitAt(q, s, b, [1], 1, l);
    ReduceStep(q, c, b, l * c, l, Sum(s - {b}, Weighted(q, s, f)), Sum(s - {b}, Weighted(q, s, [1])), rest,
               Interpolate(q, s, f), Interpolate(q, s, [1]));
  }

  /** One point fewer: for f = c + (x - b) * g, interpolating f over s is c times the sum of the
      coefficients less b times interpolating g over the other points. */
  lemma Reduce(q: Prime, s: set<int>, b: int, c: int, f: seq<int>, g: seq<int>)
    requires Points(q, s) && b in s && Eval(f, b) == c
    requires forall x :: x in s ==> Eval(f, x) == c + (x - b) * Eval(g, x)
    ensures Cong(q, Interpolate(q, s, f), c * Interpolate(q, s, [1]) - b * Interpolate(q, s - {b}, g))
  {
    var t := s - {b};
    forall x | x in t
      ensures LinearAt(q, x, Weighted(q, s, f), Weighted(q, s, [1]), Weighted(q, t, g), c, -b)
    {
      WeightedTerm(q, s, b, c, f, g, x);
    }
    SumLinear(q, t, Weighted(q, s, f), Weighted(q, s, [1]), Weighted(q, t, g), c, -b);
    AddPoint(q, s, b, c, f, Interpolate(q, t, g));
  }

  lemma Linear(b: int, x: int)
    ensures Eval([-b, 1], x) == x - b
  {
    One(x);
    assert [-b, 1][1..] == [1];
  }

  /** x - b, which vanishes at b. */
  lemma Vanishing(q: Prime, s: set<int>, b: int)
    requires Points(q, s) && b in s
    ensures Cong(q, Interpolate(q, s, [-b, 1]), -b * Interpolate(q, s - {b}, [1]))
  {
    Linear(b, b);
    forall x | x in s ensures Eval([-b, 1], x) == 0 + (x - b) * Eval([1], x) {
      Linear(b, x);
      One(x);
    }
    Reduce(q, s, b, 0, [-b, 1], [1]);
  }

  /** The coefficients over any non-empty set of points sum to one. */
  lemma {:induction false} CoefficientsSumToOne(q: Prime, s: set<int>)
    requires Points(q, s) && s != {}
    ensures Cong(q, Interpolate(q, s, [1]), 1)
    decreases |s|
  {
    var a := Pick(s);
    SumSplit(s, Weighted(q, s, [1]), a);
    One(a);
    if s == {a} {
      assert s - {a} == {};
    } else {
      var b := Pick(s - {a});
      CoefficientsSumToOne(q, s - {a});
      CoefficientsSumToOne(q, s - {b});
      TwoPoints(q, s, a, b);
    }
  }

  lemma TwoPointsStep(q: Prime, a: int, b: int, w: int, fa: int, fb: int)
    requires Cong(q, fa, -a * 1) && Cong(q, fb, -b * 1) && Cong(q, fb, 1 * fa + (a - b) * w)
    requires !Cong(q, a - b, 0)
    ensures Cong(q, w, 1)
  {
    var i := CongWitness(q, fa, -a);
    var j := CongWitness(q, fb, -b);
    var k := CongWitness(q, fb, fa + (a - b) * w);
    assert (a - b) * w - (a - b) * 1 == (j - i - k) * q;
    CongBy(q, (a - b) * w, (a - b) * 1, j - i - k);
    Cancel(q, a - b, w, 1);
  }

  lemma TwoPoints(q: Prime, s: set<int>, a: int, b: int)
    requires Points(q, s) && a in s && b in s && a != b
    requires Cong(q, Interpolate(q, s - {a}, [1]), 1) && Cong(q, Interpolate(q, s - {b}, [1]), 1)
    ensures Cong(q, Interpolate(q, s, [1]), 1)
  {
    var fa, fb := Interpolate(q, s, [-a, 1]), Interpolate(q, s, [-b, 1]);
    Vanishing(q, s, a);
    Vanishing(q, s, b);
    CongScale(q, -a, Interpolate(q, s - {a}, [1]), 1);
    CongScale(q, -b, Interpolate(q, s - {b}, [1]), 1);
    CongTrans(q, fa, -a * Interpolate(q, s - {a}, [1]), -a * 1);
    CongTrans(q, fb, -b * Interpolate(q, s - {b}, [1]), -b * 1);
    Difference(q, s, a, b);
    TwoPointsStep(q, a, b, Interpolate(q, s, [1]), fa, fb);
  }

  lemma Difference(q: Prime, s: set<int>, a: int, b: int)
    requires Points(q, s)
    ensures Cong(q, Interpolate(q, s, [-b, 1]), 1 * Interpolate(q, s, [-a, 1]) + (a - b) * Interpolate(q, s, [1]))
  {
    forall x | x in s
      ensures LinearAt(q, x, Weighted(q, s, [-b, 1]), Weighted(q, s, [-a, 1]), Weighted(q, s, [1]), 1, a - b)
    {
      One(x);
      Linear(a, x);
      Linear(b, x);
      var l := Lambda(q, s, x);
      assert l * (x - b) == 1 * (l * (x - a)) + (a - b) * (l * 1);
      CongEqual(q, l * (x - b), 1 * (l * (x - a)) + (a - b) * (l * 1));
    }
    SumLinear(q, s, Weighted(q, s, [-b, 1]), Weighted(q, s, [-a, 1]), Weighted(q, s, [1]), 1, a - b);
  }

  lemma {:induction false} NothingToSum(q: Prime, s: set<int>)
    requires Points(q, s)
    ensures Cong(q, Interpolate(q, s, []), 0)
  {
    var w := Weighted(q, s, []);
    forall x | x in s ensures LinearAt(q, x, w, w, w, 0, 0) {
      CongEqual(q, w(x), 0);
    }
    SumLinear(q, s, w, w, w, 0, 0);
  }

  /** Interpolation at zero: over any set of at least |f| distinct points, the weighted values of a
      polynomial with |f| coefficients sum to its value at zero. */
  lemma {:induction false} InterpolationAtZero(q: Prime, s: set<int>, f: seq<int>)
    requires Points(q, s) && |f| <= |s|
    ensures Cong(q, Interpolate(q, s, f), Eval(f, 0))
    decreases |f|
  {
    if f == [] {
      NothingToSum(q, s);
    } else {
      var b := Pick(s);
      var g := Quotient(f, b);
      InterpolationAtZero(q, s - {b}, g);
      CoefficientsSumToOne(q, s);
      var c := DivideOut(q, s, b, f, g);
      ZeroStep(q, c, b, Interpolate(q, s, [1]), Interpolate(q, s - {b}, g), Eval(g, 0),
               Interpolate(q, s, f), Eval(f, 0));
    }
  }

  lemma DivideOut(q: Prime, s: set<int>, b: int, f: seq<int>, g: seq<int>) returns (c: int)
    requires Points(q, s) && b in s && g == Quotient(f, b)
    ensures Cong(q, Interpolate(q, s, f), c * Interpolate(q, s, [1]) - b * Interpolate(q, s - {b}, g))
    ensures Eval(f, 0) == c - b * Eval(g, 0)
  {
    c := Eval(f, b);
    forall x | x in s ensures Eval(f, x) == c + (x - b) * Eval(g, x) {
      Division(f, b, x);
    }
    Reduce(q, s, b, c, f, g);
    Division(f, b, 0);
  }

  lemma ZeroStep(q: int, c: int, b: int, w: int, v: int, g0: int, total: int, f0: int)
    requires Cong(q, total, c * w - b * v) && Cong(q, w, 1) && Cong(q, v, g0)
    requires f0 == c - b * g0
    ensures Cong(q, total, f0)
  {
    CongScale(q, c, w, 1);
    CongScale(q, b, v, g0);
    CongAdd(q, c * w, c * 1, b * v, b * g0);
    CongTrans(q, total, c * w - b * v, f0);
  }
}
