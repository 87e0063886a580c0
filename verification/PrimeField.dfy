// Arithmetic modulo an arbitrary prime, as the big.Int code of shamir.go and frost.go
// uses it: congruence, inverses, and finite sums and products.

module PrimeField {

  predicate Divides(d: int, n: int)
    requires d > 0
  {
    n % d == 0
  }

  ghost predicate IsPrime(n: int) {
    n >= 2 && forall d :: 2 <= d < n ==> !Divides(d, n)
  }

  type Prime = n: nat | IsPrime(n) witness 2

  function Times(k: int, q: int): int {
    k * q
  }

  ghost predicate Cong(q: int, a: int, b: int) {
    exists k :: a - b == Times(k, q)
  }

  lemma CongBy(q: int, a: int, b: int, k: int)
    requires a - b == k * q
    ensures Cong(q, a, b)
  {
    assert a - b == Times(k, q);
  }

  lemma CongWitness(q: int, a: int, b: int) returns (k: int)
    requires Cong(q, a, b)
    ensures a - b == k * q
  {
    k :| a - b == Times(k, q);
  }

  lemma CongEqual(q: int, a: int, b: int)
    requires a == b
    ensures Cong(q, a, b)
  {
    CongBy(q, a, b, 0);
  }

  lemma CongSym(q: int, a: int, b: int)
    requires Cong(q, a, b)
    ensures Cong(q, b, a)
  {
    var k := CongWitness(q, a, b);
    CongBy(q, b, a, -k);
  }

  lemma CongTrans(q: int, a: int, b: int, c: int)
    requires Cong(q, a, b) && Cong(q, b, c)
    ensures Cong(q, a, c)
  {
    var k := CongWitness(q, a, b);
    var l := CongWitness(q, b, c);
    CongBy(q, a, c, k + l);
  }

  lemma CongAdd(q: int, a: int, b: int, c: int, d: int)
    requires Cong(q, a, b) && Cong(q, c, d)
    ensures Cong(q, a + c, b + d)
    ensures Cong(q, a - c, b - d)
  {
    var k := CongWitness(q, a, b);
    var l := CongWitness(q, c, d);
    CongBy(q, a + c, b + d, k + l);
    CongBy(q, a - c, b - d, k - l);
  }

  lemma CongMul(q: int, a: int, b: int, c: int, d: int)
    requires Cong(q, a, b) && Cong(q, c, d)
    ensures Cong(q, a * c, b * d)
  {
    var k := CongWitness(q, a, b);
    var l := CongWitness(q, c, d);
    calc {
      a * c - b * d;
      (a - b) * c + b * (c - d);
      (k * q) * c + b * (l * q);
      (k * c + b * l) * q;
    }
    CongBy(q, a * c, b * d, k * c + b * l);
  }

  lemma CongScale(q: int, c: int, a: int, b: int)
    requires Cong(q, a, b)
    ensures Cong(q, c * a, c * b)
  {
    CongEqual(q, c, c);
    CongMul(q, c, c, a, b);
  }

  lemma CongMod(q: int, a: int)
    requires q > 0
    ensures Cong(q, a % q, a) && Cong(q, a, a % q)
  {
    CongBy(q, a % q, a, -(a / q));
    CongBy(q, a, a % q, a / q);
  }

  lemma CongSmall(q: int, a: int, b: int)
    requires 0 <= a < q && 0 <= b < q && Cong(q, a, b)
    ensures a == b
  {
    var k := CongWitness(q, a, b);
    MultipleIsLarge(k, q);
  }

  lemma MultipleIsLarge(k: int, q: int)
    requires q > 0
    ensures k >= 1 ==> k * q >= q
    ensures k <= -1 ==> k * q <= -q
  {
    if k >= 1 {
      assert k * q == q + (k - 1) * q;
    } else if k <= -1 {
      assert k * q == -q + (k + 1) * q;
    }
  }

  lemma Distribute(c: int, a: int, b: int)
    ensures c * (a + b) == c * a + c * b && c * (a - b) == c * a - c * b
  {
  }

  /** Congruent numbers have one residue. */
  lemma CongResidue(q: int, a: int, b: int)
    requires q > 0
    ensures Cong(q, a, b) <==> a % q == b % q
  {
    CongMod(q, a);
    CongMod(q, b);
    if Cong(q, a, b) {
      CongTrans(q, a % q, a, b);
      CongTrans(q, a % q, b, b % q);
      CongSmall(q, a % q, b % q);
    } else if a % q == b % q {
      CongTrans(q, a, a % q, b);
    }
  }

  // Rearranged products, kept apart so that no larger proof has to find them.

  lemma Commute(a: int, b: int)
    ensures a * b == b * a
  {
  }

  lemma SwapFactors(a: int, b: int, c: int)
    ensures a * (b * c) == b * (a * c)
  {
  }

  lemma RotateFactors(a: int, b: int, c: int)
    ensures a * (b * c) == c * (a * b)
  {
  }

  lemma Reassociate(a: int, b: int, c: int)
    ensures a * (b * c) == (a * c) * b
  {
  }

  /** A residue congruent to a number is that number's residue. */
  lemma Settled(q: nat, v: int, a: int)
    requires 0 <= v < q && Cong(q, v, a)
    ensures v == a % q
  {
    CongMod(q, a);
    CongTrans(q, v, a, a % q);
    CongSmall(q, v, a % q);
  }

  // ---------------------------------------------------------------- inverses

  /** Every residue but zero has an inverse: Euclid's descent, which primality keeps off zero. */
  lemma {:induction false} InverseBelow(q: Prime, a: int) returns (x: int)
    requires 0 < a < q
    ensures Cong(q, a * x, 1)
    decreases a
  {
    if a == 1 {
      x := 1;
      CongEqual(q, a * x, 1);
    } else {
      var r, d := q % a, q / a;
      assert IsPrime(q) && !Divides(a, q);
      var y := InverseBelow(q, r);
      var k := CongWitness(q, r * y, 1);
      x := -d * y;
      calc {
        a * x - 1;
        a * (-d * y) - 1;
        -(a * d) * y - 1;
        { assert a * d == q - r; }
        -(q - r) * y - 1;
        r * y - 1 - q * y;
        (k - y) * q;
      }
      CongBy(q, a * x, 1, k - y);
    }
  }

  lemma Inverse(q: Prime, a: int) returns (x: int)
    requires !Cong(q, a, 0)
    ensures 0 <= x < q && Cong(q, a * x, 1)
  {
    assert IsPrime(q);
    CongMod(q, a);
    if a % q == 0 {
      assert false;
    }
    var y := InverseBelow(q, a % q);
    x := y % q;
    CongMod(q, y);
    CongMul(q, a, a % q, x, y);
    CongTrans(q, a * x, (a % q) * y, 1);
  }

  /** The first x in [from, q) with a*x = 1 modulo q: big.Int's ModInverse, nil when there is none. */
  function SearchInverse(q: nat, a: int, from: nat): (x: nat)
    requires from <= q && q > 0
    ensures x <= q && (x < q ==> (a * x) % q == 1)
    ensures forall y :: from <= y < x ==> (a * y) % q != 1
    decreases q - from
  {
    if from == q then q else if (a * from) % q == 1 then from else SearchInverse(q, a, from + 1)
  }

  lemma OneIsItsResidue(q: nat)
    requires q > 1
    ensures 1 % q == 1
  {
  }

  lemma InverseFound(q: Prime, a: int)
    requires !Cong(q, a, 0)
    ensures q > 1 && SearchInverse(q, a, 0) < q && Cong(q, a * SearchInverse(q, a, 0), 1)
  {
    assert IsPrime(q);
    var x := Inverse(q, a);
    var y := SearchInverse(q, a, 0);
    OneIsItsResidue(q);
    CongResidue(q, a * x, 1);
    CongResidue(q, a * y, 1);
  }

  lemma NoInverse(q: Prime, a: int, x: int)
    requires Cong(q, a, 0)
    ensures !Cong(q, a * x, 1)
  {
    assert IsPrime(q);
    if Cong(q, a * x, 1) {
      CongScale(q, x, a, 0);
      CongSym(q, a * x, 1);
      CongTrans(q, 1, a * x, 0);
      CongSmall(q, 1, 0);
    }
  }

  lemma Cancel(q: Prime, c: int, a: int, b: int)
    requires !Cong(q, c, 0) && Cong(q, c * a, c * b)
    ensures Cong(q, a, b)
  {
    var x := Inverse(q, c);
    CongScale(q, x, c * a, c * b);
    Unscale(q, x, c, a);
    Unscale(q, x, c, b);
    CongSym(q, x * (c * a), a);
    CongTrans(q, a, x * (c * a), x * (c * b));
    CongTrans(q, a, x * (c * b), b);
  }

  lemma Unscale(q: Prime, x: int, c: int, a: int)
    requires Cong(q, c * x, 1)
    ensures Cong(q, x * (c * a), a)
  {
    CongScale(q, a, c * x, 1);
    assert a * (c * x) == x * (c * a);
  }

  lemma NonzeroProduct(q: Prime, a: int, b: int)
    requires !Cong(q, a, 0) && !Cong(q, b, 0)
    ensures !Cong(q, a * b, 0)
  {
    if Cong(q, a * b, 0) {
      assert a * 0 == 0;
      Cancel(q, a, b, 0);
    }
  }

  // ------------------------------------------------------- sums and products

  lemma Pick<K>(s: set<K>) returns (x: K)
    requires |s| > 0
    ensures x in s
  {
    x :| x in s;
  }

  ghost function Sum<K(!new)>(s: set<K>, f: K -> int): int {
    if s == {} then 0 else var k :| k in s; f(k) + Sum(s - {k}, f)
  }

  ghost function Product<K(!new)>(s: set<K>, f: K -> int): int {
    if s == {} then 1 else var k :| k in s; f(k) * Product(s - {k}, f)
  }

  lemma {:induction false} SumSplit<K(!new)>(s: set<K>, f: K -> int, x: K)
    requires x in s
    ensures Sum(s, f) == f(x) + Sum(s - {x}, f)
    decreases |s|
  {
    var k :| k in s && Sum(s, f) == f(k) + Sum(s - {k}, f);
    if k != x {
      SumSplit(s - {k}, f, x);
      SumSplit(s - {x}, f, k);
      assert s - {k} - {x} == s - {x} - {k};
    }
  }

  lemma {:induction false} ZeroSum<K(!new)>(s: set<K>, f: K -> int)
    requires forall x :: x in s ==> f(x) == 0
    ensures Sum(s, f) == 0
  {
    if s != {} {
      var x := Pick(s);
      SumSplit(s, f, x);
      ZeroSum(s - {x}, f);
    }
  }

  lemma {:induction false} ProductSplit<K(!new)>(s: set<K>, f: K -> int, x: K)
    requires x in s
    ensures Product(s, f) == f(x) * Product(s - {x}, f)
    decreases |s|
  {
    var k :| k in s && Product(s, f) == f(k) * Product(s - {k}, f);
    if k != x {
      ProductSplit(s - {k}, f, x);
      ProductSplit(s - {x}, f, k);
      assert s - {k} - {x} == s - {x} - {k};
      SwapFactors(f(k), f(x), Product(s - {k} - {x}, f));
    }
  }

  lemma LinearStep(q: int, c: int, d: int, f: int, g: int, h: int, fs: int, gs: int, hs: int)
    requires Cong(q, f, c * g + d * h) && Cong(q, fs, c * gs + d * hs)
    ensures Cong(q, f + fs, c * (g + gs) + d * (h + hs))
  {
    CongAdd(q, f, c * g + d * h, fs, c * gs + d * hs);
    Distribute(c, g, gs);
    Distribute(d, h, hs);
  }

  ghost predicate LinearAt<K(!new)>(q: int, x: K, f: K -> int, g: K -> int, h: K -> int, c: int, d: int) {
    Cong(q, f(x), c * g(x) + d * h(x))
  }

  ghost predicate PointwiseLinear<K(!new)>(q: int, s: set<K>, f: K -> int, g: K -> int, h: K -> int, c: int, d: int) {
    forall x :: x in s ==> LinearAt(q, x, f, g, h, c, d)
  }

  /** A sum of terms that are pointwise c*g + d*h. */
  lemma {:induction false} SumLinear<K(!new)>(q: int, s: set<K>, f: K -> int, g: K -> int, h: K -> int, c: int, d: int)
    requires PointwiseLinear(q, s, f, g, h, c, d)
    ensures Cong(q, Sum(s, f), c * Sum(s, g) + d * Sum(s, h))
    decreases |s|
  {
    if s == {} {
      CongEqual(q, Sum(s, f), c * Sum(s, g) + d * Sum(s, h));
    } else {
      var x :| x in s;
      var t := s - {x};
      assert LinearAt(q, x, f, g, h, c, d);
      SumSplit(s, f, x);
      SumSplit(s, g, x);
      SumSplit(s, h, x);
      SumLinear(q, t, f, g, h, c, d);
      LinearStep(q, c, d, f(x), g(x), h(x), Sum(t, f), Sum(t, g), Sum(t, h));
    }
  }

  lemma SumCong<K(!new)>(q: int, s: set<K>, f: K -> int, g: K -> int)
    requires forall x :: x in s ==> Cong(q, f(x), g(x))
    ensures Cong(q, Sum(s, f), Sum(s, g))
  {
    forall x | x in s ensures LinearAt(q, x, f, g, g, 1, 0) {}
    SumLinear(q, s, f, g, g, 1, 0);
  }

  lemma {:induction false} SumEqual<K(!new)>(s: set<K>, f: K -> int, g: K -> int)
    requires forall x :: x in s ==> f(x) == g(x)
    ensures Sum(s, f) == Sum(s, g)
    decreases |s|
  {
    if s != {} {
      var x :| x in s;
      SumSplit(s, f, x);
      SumSplit(s, g, x);
      SumEqual(s - {x}, f, g);
    }
  }

  /** Summing over keys is summing over their distinct images. */
  lemma {:induction false} SumReindex<K(!new), J(!new)>(s: set<K>, image: set<J>, m: K -> J, f: K -> int, g: J -> int)
    requires forall x, y :: x in s && y in s && m(x) == m(y) ==> x == y
    requires image == set x | x in s :: m(x)
    requires forall x :: x in s ==> f(x) == g(m(x))
    ensures Sum(s, f) == Sum(image, g)
    decreases |s|
  {
    if s != {} {
      var x :| x in s;
      SumSplit(s, f, x);
      SumSplit(image, g, m(x));
      SumReindex(s - {x}, image - {m(x)}, m, f, g);
    }
  }

  /** A product of factors none of which is zero modulo a prime is not zero. */
  lemma {:induction false} ProductNonzero<K(!new)>(q: Prime, s: set<K>, f: K -> int)
    requires forall x :: x in s ==> !Cong(q, f(x), 0)
    ensures !Cong(q, Product(s, f), 0)
    decreases |s|
  {
    if s == {} {
      assert IsPrime(q);
      if Cong(q, 1, 0) {
        CongSmall(q, 1, 0);
      }
    } else {
      var x :| x in s;
      ProductSplit(s, f, x);
      ProductNonzero(q, s - {x}, f);
      NonzeroProduct(q, f(x), Product(s - {x}, f));
    }
  }
}
