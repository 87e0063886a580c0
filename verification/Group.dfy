// The prime-order group of frost.go and what the source builds on it. A point is
// its discrete logarithm to the base point, a residue modulo the group order q, so
// B is 1 and adding points is adding residues.

module Group {
  import opened Wrappers
  import opened Orders
  import opened PrimeField
  import opened Interpolation
  import opened BigEndian
  import opened Accumulate

  function PointAdd(q: nat, a: nat, b: nat): (r: nat)
    requires q > 0
  {
    (a + b) % q
  }

  /** k * P. */
  function Scale(q: nat, k: nat, p: nat): (r: nat)
    requires q > 0
  {
    (k * p) % q
  }

  lemma SumOfPoints(q: nat, a: nat, b: nat, x: int, y: int)
    requires q > 0 && Cong(q, a, x) && Cong(q, b, y)
    ensures Cong(q, PointAdd(q, a, b), x + y)
  {
    CongAdd(q, a, x, b, y);
    CongMod(q, a + b);
    CongTrans(q, PointAdd(q, a, b), a + b, x + y);
  }

  lemma MultipleOfPoint(q: nat, k: nat, p: nat, x: int)
    requires q > 0 && Cong(q, p, x)
    ensures Cong(q, Scale(q, k, p), k * x)
  {
    CongScale(q, k, p, x);
    CongMod(q, k * p);
    CongTrans(q, Scale(q, k, p), k * p, k * x);
  }

  // ------------------------------------------------------- double and add

  /** b shifted right i times. */
  function Shift(b: nat, i: nat): nat {
    if i == 0 then b else Shift(b, i - 1) / 2
  }

  /** The number read after the bits of byt from 7 down to i, starting from v. */
  function ReadBits(v: nat, byt: nat, i: nat): nat
    requires i <= 8
    decreases 8 - i
  {
    if i == 8 then v else 2 * ReadBits(v, byt, i + 1) + Shift(byt, i) % 2
  }

  function Pow2(n: nat): nat {
    if n == 0 then 1 else 2 * Pow2(n - 1)
  }

  lemma {:induction false} ShiftBound(b: nat, i: nat)
    ensures Shift(b, i) * Pow2(i) <= b
  {
    if i > 0 {
      ShiftBound(b, i - 1);
      HalfOfMore(Shift(b, i - 1), Pow2(i - 1));
    }
  }

  lemma HalfOfMore(s: nat, w: nat)
    ensures (s / 2) * (2 * w) <= s * w
  {
    assert (s / 2) * 2 <= s;
    assert ((s / 2) * 2) * w <= s * w;
  }

  lemma ShiftedOut(byt: Byte)
    ensures Shift(byt, 8) == 0
  {
    ShiftBound(byt, 8);
    assert Pow2(8) == 256;
  }

  /** The bits above i, read on top of v. */
  lemma {:induction false} BitsRead(v: nat, byt: nat, i: nat)
    requires i <= 8 && Shift(byt, 8) == 0
    ensures ReadBits(v, byt, i) == v * Pow2(8 - i) + Shift(byt, i)
    decreases 8 - i
  {
    if i < 8 {
      BitsRead(v, byt, i + 1);
      assert Shift(byt, i + 1) == Shift(byt, i) / 2;
      OneMoreBit(v, Pow2(7 - i), Shift(byt, i));
    }
  }

  lemma OneMoreBit(v: nat, w: nat, s: nat)
    ensures 2 * (v * w + s / 2) + s % 2 == v * (2 * w) + s
  {
    assert 2 * (v * w) == v * (2 * w);
  }

  lemma ReadByte(v: nat, byt: Byte)
    ensures ReadBits(v, byt, 0) == v * 256 + byt
  {
    ShiftedOut(byt);
    BitsRead(v, byt, 0);
    assert Pow2(8) == 256;
  }

  lemma DoubleAndAdd(q: nat, acc: nat, v: nat, p: nat, bit: nat)
    requires q > 0 && Cong(q, acc, v * p) && bit <= 1
    ensures Cong(q, if bit == 1 then PointAdd(q, PointAdd(q, acc, acc), p) else PointAdd(q, acc, acc),
                 (2 * v + bit) * p)
  {
    SumOfPoints(q, acc, acc, v * p, v * p);
    CongEqual(q, p, p);
    SumOfPoints(q, PointAdd(q, acc, acc), p, v * p + v * p, p);
    assert (2 * v + bit) * p == v * p + v * p + bit * p;
  }

  /** The 256-bit loop of the source, byte by byte from the top, computes k * P. */
  method ScalarMult(q: nat, k: nat, p: nat) returns (r: nat)
    requires q > 0
    ensures r == Scale(q, k, p)
  {
    var acc: nat := 0;
    var bytes := Bytes(k);
    assert 0 * p == 0;
    CongEqual(q, 0, 0 * p);
    for j := 0 to |bytes|
      invariant acc < q && Cong(q, acc, SetBytes(bytes[..j]) * p)
    {
      var byt, i := bytes[j], 8;
      ghost var v := SetBytes(bytes[..j]);
      while i > 0
        invariant 0 <= i <= 8 && acc < q
        invariant Cong(q, acc, ReadBits(v, byt, i) * p)
      {
        i := i - 1;
        DoubleAndAdd(q, acc, ReadBits(v, byt, i + 1), p, Shift(byt, i) % 2);
        acc := PointAdd(q, acc, acc);
        if Shift(byt, i) % 2 == 1 {
          acc := PointAdd(q, acc, p);
        }
      }
      ReadByte(v, byt);
      assert bytes[..j + 1][..j] == bytes[..j];
    }
    assert bytes[..|bytes|] == bytes;
    BytesOfNumber(k);
    Settled(q, acc, k * p);
    r := acc;
  }

  lemma {:induction false} BytesOfNumber(n: nat)
    ensures SetBytes(Bytes(n)) == n
  {
    if n > 0 {
      BytesOfNumber(n / 256);
      assert Bytes(n)[..|Bytes(n)| - 1] == Bytes(n / 256);
    }
  }

  // ----------------------------------------------------- Feldman commitments

  /** share * B == sum of C_j * x^j: the share is the value at x of the committed polynomial. */
  ghost predicate OnCommitments(q: nat, commit: seq<nat>, x: int, share: int) {
    Cong(q, Eval(commit, x), share)
  }

  method ShareVerifies(q: nat, commit: seq<nat>, x: nat, share: nat) returns (ok: bool)
    requires q > 0
    ensures ok <==> OnCommitments(q, commit, x, share)
  {
    var acc: nat, xp: nat := 0, 1;
    CongEqual(q, 0, 0);
    for j := 0 to |commit|
      invariant acc < q && xp == Pow(x, j)
      invariant Cong(q, acc, Eval(commit[..j], x))
    {
      var c := commit[j];
      var cx := ScalarMult(q, xp, c);
      CongEqual(q, c, c);
      MultipleOfPoint(q, xp, c, c);
      SumOfPoints(q, acc, cx, Eval(commit[..j], x), xp * c);
      EvalAppend(commit[..j], c, x);
      assert commit[..j] + [c] == commit[..j + 1];
      acc := PointAdd(q, acc, cx);
      xp := xp * x;
    }
    assert commit[..|commit|] == commit;
    var want := ScalarMult(q, share, 1);
    CompareEncoded(q, acc, Eval(commit, x), want, share);
    ok := acc == want;
  }

  lemma CompareEncoded(q: nat, acc: nat, value: int, want: nat, share: nat)
    requires q > 0 && acc < q && Cong(q, acc, value) && want == Scale(q, share, 1)
    ensures acc == want <==> Cong(q, value, share)
  {
    Settled(q, acc, value);
    assert share * 1 == share;
    CongResidue(q, value, share);
  }

  // ------------------------------------------------- Lagrange coefficients

  /** The products of lagrange over any list, members equal to x skipped. */
  function ListNumerator(xs: seq<int>, x: int): int {
    if xs == [] then 1
    else
      var rest, y := ListNumerator(xs[..|xs| - 1], x), xs[|xs| - 1];
      if y == x then rest else rest * y
  }

  function ListDenominator(xs: seq<int>, x: int): int {
    if xs == [] then 1
    else
      var rest, y := ListDenominator(xs[..|xs| - 1], x), xs[|xs| - 1];
      if y == x then rest else rest * (y - x)
  }

  lemma OneMoreFactor(s: set<int>, x: int, y: int)
    requires y !in s && y != x
    ensures Numerator(s + {y}, x) == Numerator(s, x) * y
    ensures Denominator(s + {y}, x) == Denominator(s, x) * (y - x)
  {
    var all := s + {y} - {x};
    assert all - {y} == s - {x};
    ProductSplit(all, Identity(), y);
    ProductSplit(all, Minus(x), y);
    Commute(y, Numerator(s, x));
    Commute(y - x, Denominator(s, x));
  }

  /** Over a list without repetition these are the set products of interpolation, in any order. */
  lemma {:induction false} ListProducts(xs: seq<int>, x: int)
    requires Distinct(xs)
    ensures ListNumerator(xs, x) == Numerator(Members(xs), x)
    ensures ListDenominator(xs, x) == Denominator(Members(xs), x)
  {
    if xs == [] {
      assert Members(xs) - {x} == {};
    } else {
      var front, y := xs[..|xs| - 1], xs[|xs| - 1];
      ListProducts(front, x);
      MembersOfFront(xs);
      if y == x {
        assert Members(xs) - {x} == Members(front) - {x};
      } else {
        OneMoreFactor(Members(front), x, y);
      }
    }
  }

  /** The coefficient of participant x over the list xs; None where the source would divide by zero. */
  method Lagrange(q: nat, x: int, xs: seq<int>) returns (l: Option<nat>)
    requires q > 0
    ensures l == LagrangeValue(q, x, xs)
  {
    var num, den := 1, 1;
    for i := 0 to |xs|
      invariant num == ListNumerator(xs[..i], x) && den == ListDenominator(xs[..i], x)
    {
      assert xs[..i + 1][..i] == xs[..i];
      if xs[i] != x {
        num := num * xs[i];
        den := den * (xs[i] - x);
      }
    }
    assert xs[..|xs|] == xs;
    num, den := num % q, den % q;
    var inv := SearchInverse(q, den, 0);
    l := if inv == q then None else Some((num * inv) % q);
  }

  function LagrangeValue(q: nat, x: int, xs: seq<int>): Option<nat>
    requires q > 0
  {
    var inv := SearchInverse(q, ListDenominator(xs, x) % q, 0);
    if inv == q then None else Some(((ListNumerator(xs, x) % q) * inv) % q)
  }

  /** Over distinct points the value exists and is the Lagrange coefficient at zero. */
  lemma LagrangeIsLambda(q: Prime, x: int, xs: seq<int>)
    requires Distinct(xs) && x in Members(xs) && Points(q, Members(xs))
    ensures q > 0 && LagrangeValue(q, x, xs).Some?
    ensures Cong(q, LagrangeValue(q, x, xs).value, Lambda(q, Members(xs), x))
  {
    assert IsPrime(q);
    var s := Members(xs);
    var n, d := ListNumerator(xs, x), ListDenominator(xs, x);
    ListProducts(xs, x);
    DenominatorNonzero(q, s, x);
    CongMod(q, d);
    CongMod(q, n);
    if Cong(q, d % q, 0) {
      CongTrans(q, d, d % q, 0);
    }
    InverseFound(q, d % q);
    var inv := SearchInverse(q, d % q, 0);
    var l := QuotientMod(q, d % q, n % q, inv);
    CongScale(q, l, d, d % q);
    CongTrans(q, l * d, l * (d % q), n % q);
    CongTrans(q, l * d, n % q, n);
    LambdaUnique(q, s, x, l);
  }

  // ------------------------------------------------------------- dealer mode

  /** The commitment vector of a polynomial: each coefficient times B. */
  function CommitTo(q: nat, f: seq<nat>): (c: seq<nat>)
    requires q > 0
    ensures |c| == |f|
  {
    seq(|f|, i requires 0 <= i < |f| => Scale(q, f[i], 1))
  }

  /** A dealer's commitments: the constant and then every random coefficient times B. */
  method CommitCoefficients(q: nat, a: nat, coeff: seq<nat>) returns (commit: seq<nat>)
    requires q > 0
    ensures commit == CommitTo(q, [a] + coeff)
  {
    var first := ScalarMult(q, a, 1);
    commit := [first];
    for i := 0 to |coeff|
      invariant |commit| == i + 1 && commit[0] == first
      invariant forall k :: 0 <= k < i ==> commit[k + 1] == Scale(q, coeff[k], 1)
    {
      var c := ScalarMult(q, coeff[i], 1);
      commit := commit + [c];
    }
  }

  lemma {:induction false} CommitmentsEvaluate(q: nat, f: seq<nat>, x: int)
    requires q > 0
    ensures Cong(q, Eval(CommitTo(q, f), x), Eval(f, x))
  {
    if f == [] {
      CongEqual(q, 0, 0);
    } else {
      var t := f[1..];
      CommitmentsEvaluate(q, t, x);
      assert CommitTo(q, f)[1..] == CommitTo(q, t);
      CongScale(q, x, Eval(CommitTo(q, t), x), Eval(t, x));
      CongEqual(q, f[0], f[0]);
      MultipleOfPoint(q, f[0], 1, 1) by { CongEqual(q, 1, 1); }
      assert f[0] * 1 == f[0];
      CongAdd(q, Scale(q, f[0], 1), f[0], x * Eval(CommitTo(q, t), x), x * Eval(t, x));
    }
  }

  /** An honest share always verifies against its dealer's commitments. */
  lemma HonestShareVerifies(q: nat, coeff: seq<nat>, secret: nat, x: int)
    requires q > 0
    ensures OnCommitments(q, CommitTo(q, [secret] + coeff), x, PolyValue(q, coeff, secret, x))
  {
    var f := [secret] + coeff;
    CommitmentsEvaluate(q, f, x);
    PolyValueCong(q, coeff, secret, x);
    CongSym(q, PolyValue(q, coeff, secret, x), Eval(f, x));
    CongTrans(q, Eval(CommitTo(q, f), x), Eval(f, x), PolyValue(q, coeff, secret, x));
  }
}
