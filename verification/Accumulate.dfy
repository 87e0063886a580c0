// The accumulator loop that evaluates a secret-sharing polynomial, the same code in
// shamir.go (evalPoly) and frost.go (evalPolyL), over any modulus.

module Accumulate {
  import opened PrimeField
  import opened Interpolation

  function Pow(x: int, n: nat): int {
    if n == 0 then 1 else x * Pow(x, n - 1)
  }

  lemma {:induction false} EvalAppend(f: seq<int>, c: int, x: int)
    ensures Eval(f + [c], x) == Eval(f, x) + c * Pow(x, |f|)
  {
    if f == [] {
      assert f + [c] == [c] && [c][1..] == [];
    } else {
      var t := f[1..];
      EvalAppend(t, c, x);
      assert (f + [c])[1..] == t + [c];
      assert x * (Eval(t, x) + c * Pow(x, |t|)) == x * Eval(t, x) + c * (x * Pow(x, |t|));
    }
  }

  lemma AccumulateStep(q: nat, acc: int, c: int, xp: int, x: int, value: int, power: int)
    requires q > 0 && Cong(q, acc, value) && Cong(q, xp, power)
    ensures Cong(q, (acc + c * xp) % q, value + c * power) && Cong(q, (xp * x) % q, x * power)
  {
    CongScale(q, c, xp, power);
    CongAdd(q, acc, value, c * xp, c * power);
    CongMod(q, acc + c * xp);
    CongTrans(q, (acc + c * xp) % q, acc + c * xp, value + c * power);
    ScaledMod(q, xp, x, power);
  }

  lemma ScaledMod(p: nat, a: int, y: int, b: int)
    requires p > 0 && Cong(p, a, b)
    ensures Cong(p, (a * y) % p, y * b)
  {
    CongScale(p, y, a, b);
    assert y * a == a * y;
    CongMod(p, a * y);
    CongTrans(p, (a * y) % p, a * y, y * b);
  }

  /** What the accumulator loops of shamir.go and frost.go hold before round i. */
  ghost predicate Accumulated(q: nat, coeff: seq<int>, secret: int, x: int, i: nat, acc: int, xp: int)
    requires i <= |coeff|
  {
    && Cong(q, acc, Eval([secret] + coeff[..i], x)) && Cong(q, xp, Pow(x, i + 1))
    && if i == 0 then acc == secret else 0 <= acc < q
  }

  lemma AccumulateStart(q: nat, coeff: seq<int>, secret: int, x: int)
    ensures Accumulated(q, coeff, secret, x, 0, secret, x)
  {
    assert [secret] + coeff[..0] == [secret] && [secret][1..] == [];
    assert Eval([secret], x) == secret + x * 0;
    CongEqual(q, secret, Eval([secret], x));
    assert Pow(x, 1) == x * Pow(x, 0);
    CongEqual(q, x, Pow(x, 1));
  }

  lemma AccumulateRound(q: nat, coeff: seq<int>, secret: int, x: int, i: nat, acc: int, xp: int)
    requires q > 0 && i < |coeff| && Accumulated(q, coeff, secret, x, i, acc, xp)
    ensures Accumulated(q, coeff, secret, x, i + 1, (acc + coeff[i] * xp) % q, (xp * x) % q)
  {
    var f, c := [secret] + coeff[..i], coeff[i];
    AccumulateStep(q, acc, c, xp, x, Eval(f, x), Pow(x, i + 1));
    EvalAppend(f, c, x);
    assert f + [c] == [secret] + coeff[..i + 1];
  }

  lemma AccumulateEnd(q: nat, coeff: seq<int>, secret: int, x: int, acc: int, xp: int)
    requires q > 0 && Accumulated(q, coeff, secret, x, |coeff|, acc, xp)
    ensures acc == PolyValue(q, coeff, secret, x)
  {
    assert coeff[..|coeff|] == coeff;
    if coeff != [] {
      Settled(q, acc, Eval([secret] + coeff, x));
    }
  }

  /** The loop's value: the reduced polynomial value, or the bare secret when there are no coefficients. */
  function PolyValue(q: nat, coeff: seq<int>, secret: int, x: int): int
    requires q > 0
  {
    if coeff == [] then secret else Eval([secret] + coeff, x) % q
  }

  method EvalPoly(q: nat, coeff: seq<int>, secret: int, x: int) returns (acc: int)
    requires q > 0
    ensures acc == PolyValue(q, coeff, secret, x)
  {
    acc := secret;
    var xp := x;
    AccumulateStart(q, coeff, secret, x);
    for i := 0 to |coeff|
      invariant Accumulated(q, coeff, secret, x, i, acc, xp)
    {
      AccumulateRound(q, coeff, secret, x, i, acc, xp);
      acc := (acc + coeff[i] * xp) % q;
      xp := (xp * x) % q;
    }
    AccumulateEnd(q, coeff, secret, x, acc, xp);
  }

  lemma PolyValueCong(q: nat, coeff: seq<int>, secret: int, x: int)
    requires q > 0
    ensures Cong(q, PolyValue(q, coeff, secret, x), Eval([secret] + coeff, x))
  {
    var f := [secret] + coeff;
    if coeff == [] {
      assert f == [secret] && f[1..] == [];
      assert Eval(f, x) == secret + x * 0;
      CongEqual(q, secret, Eval(f, x));
    } else {
      CongMod(q, Eval(f, x));
    }
  }
}
