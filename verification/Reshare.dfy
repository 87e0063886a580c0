// reshare.go: old holders split their weighted shares among new members, who sum
// the verified pieces. The secret behind the group key does not change.

module Reshare {
  import opened Wrappers
  import opened Orders
  import opened PrimeField
  import opened Interpolation
  import opened Accumulate
  import opened Group
  import opened Frost
  import opened KeyShares

  /** What ReshareSplit publishes and sends: commitments, and one sub-share per new index. */
  datatype Split = Split(commits: seq<nat>, shares: map<int, nat>)

  /** The split of [a0] + coeff over newSet. */
  ghost predicate SplitOf(q: nat, a0: nat, coeff: seq<nat>, newSet: seq<nat>, s: Split)
    requires q > 0
  {
    && s.commits == CommitTo(q, [a0] + coeff) && s.shares.Keys == Members(newSet)
    && forall j :: j in s.shares ==> s.shares[j] == PolyValue(q, coeff, a0, j)
  }

  /** lambda * y reduced: what the old member's polynomial hides. */
  function WeightedShare(q: nat, lam: nat, y: nat): (a0: nat)
    requires q > 0
  {
    (lam * y) % q
  }

  method ReshareSplit(q: nat, me: Id, y: Option<int>, oldSet: seq<int>, newSet: seq<nat>, tNew: int, coeff: seq<nat>)
      returns (r: Result<Split>)
    requires q > 0 && (1 <= tNew ==> |coeff| == tNew - 1)
    ensures r.Ok? <==> y.Some? && 0 < y.value < q && 1 <= tNew <= |newSet| && MemberX(me) != 0
                       && LagrangeValue(q, MemberX(me), oldSet).Some?
    ensures r.Ok? ==> SplitOf(q, WeightedShare(q, LagrangeValue(q, MemberX(me), oldSet).value, y.value), coeff,
                              newSet, r.value)
    ensures r.Ok? ==>
              var a0 := (LagrangeValue(q, MemberX(me), oldSet).value * y.value) % q;
              && r.value.commits == CommitTo(q, [a0] + coeff)
              && (forall j :: j in r.value.shares <==> j in newSet)
              && forall j :: j in r.value.shares ==> r.value.shares[j] == PolyValue(q, coeff, a0, j)
  {
    if y.None? || y.value <= 0 || y.value >= q {
      return Err("reshare: bad share");
    }
    if tNew < 1 || tNew > |newSet| {
      return Err("reshare: bad new threshold");
    }
    var xi := MemberX(me);
    if xi == 0 {
      return Err("reshare: bad member id");
    }
    var lam := Lagrange(q, xi, oldSet);
    if lam.None? {
      return Err("reshare: singular denominator");
    }
    var a0 := (lam.value * y.value) % q;
    var commit := CommitCoefficients(q, a0, coeff);
    var shares: map<int, nat> := map[];
    for i := 0 to |newSet|
      invariant shares.Keys == Members(newSet[..i])
      invariant forall j :: j in shares ==> shares[j] == PolyValue(q, coeff, a0, j)
    {
      var share := EvalPoly(q, coeff, a0, newSet[i]);
      NonNegative(q, coeff, a0, newSet[i]);
      assert newSet[..i + 1] == newSet[..i] + [newSet[i]];
      MembersGrow(newSet[..i], newSet[i]);
      shares := shares[newSet[i] := share];
    }
    assert newSet[..|newSet|] == newSet;
    r := Ok(Split(commit, shares));
  }

  // ------------------------------------------------------------------ combine

  /** The vectors and sub-shares as a new member receives them; None is a nil sub-share. */
  datatype Inbox = Inbox(commits: map<Id, seq<PointWire>>, subShares: map<Id, Option<nat>>)

  ghost predicate PieceOk(q: nat, box: Inbox, x: nat, from: Id)
    requires from in box.commits
  {
    && Parses(q, box.commits[from]) && from in box.subShares && box.subShares[from].Some?
    && OnCommitments(q, Parsed(q, box.commits[from]), x, box.subShares[from].value)
  }

  /** Every piece verifies and all vectors have one length, as with honest senders. */
  ghost predicate Honest(q: nat, x: nat, box: Inbox) {
    && box.commits != map[] && |box.commits| == |box.subShares|
    && (forall from :: from in box.commits ==> PieceOk(q, box, x, from))
    && (forall a, b :: a in box.commits && b in box.commits ==> |box.commits[a]| == |box.commits[b]|)
  }

  ghost function Vectors(q: nat, box: Inbox): map<Id, seq<int>> {
    map from | from in box.commits :: if Parses(q, box.commits[from]) then Parsed(q, box.commits[from]) else []
  }

  ghost function Pieces(box: Inbox): Id -> int {
    from => if from in box.subShares && box.subShares[from].Some? then box.subShares[from].value else 0
  }

  /** Verifies and sums every piece. The source sorts the senders; any order gives these results. */
  method ReshareCombine(q: nat, me: Id, newIndex: int, box: Inbox, groupPub: nat) returns (r: Result<KeyShare>)
    requires q > 0
    ensures r.Ok? ==> newIndex > 0 && box.commits != map[] && |box.commits| == |box.subShares|
    ensures r.Ok? ==> forall from :: from in box.commits ==> PieceOk(q, box, newIndex, from)
    ensures r.Ok? ==>
              var s := r.value;
              && s.id == me && s.x == newIndex && s.groupPub == groupPub && s.pubShare == Scale(q, s.share, 1)
              && s.share == Sum(box.commits.Keys, Pieces(box)) % q && OnCommitments(q, s.vk, newIndex, s.share)
              && Loads(q, FileOf(s)) && s.globalVK == []
    ensures r.Ok? ==> Combined(q, me, newIndex, box, groupPub, r.value) && SumsOf(q, box, box.commits.Keys, r.value.vk)
    ensures newIndex > 0 && Honest(q, newIndex, box) ==> r.Ok?
  {
    if newIndex <= 0 {
      return Err("reshare: bad new index");
    }
    if |box.commits| == 0 || |box.commits| != |box.subShares| {
      return Err("reshare: commit/share count mismatch");
    }
    var y: nat, combined: Option<seq<nat>>, done: set<Id> := 0, None, {};
    while done != box.commits.Keys
      invariant done <= box.commits.Keys && Progress(q, newIndex, box, done, y, combined)
      decreases box.commits.Keys - done
    {
      assert box.commits.Keys == done + (box.commits.Keys - done);
      var from :| from in box.commits.Keys - done;
      var next := CombineOne(q, newIndex, box, done, y, combined, from);
      if next.Err? {
        return Err(next.reason);
      }
      y, combined, done := next.value.0, Some(next.value.1), done + {from};
    }
    var share := y % q;
    var pubShare := ScalarMult(q, share, 1);
    assert done != {};
    CombinedVerifies(q, newIndex, box, combined.value, y);
    r := Ok(KeyShare(me, newIndex, share, groupPub, pubShare, combined.value, []));
  }

  /** What the loop holds after the senders in done: their pieces verified, y and combined their sums. */
  ghost predicate Progress(q: nat, x: nat, box: Inbox, done: set<Id>, y: int, combined: Option<seq<nat>>) {
    && done <= box.commits.Keys && (combined.None? <==> done == {}) && y == Sum(done, Pieces(box))
    && (forall from :: from in done ==> PieceOk(q, box, x, from))
    && (combined.Some? ==> SumsOf(q, box, done, combined.value))
  }

  ghost predicate SumsOf(q: nat, box: Inbox, done: set<Id>, sum: seq<nat>)
    requires done <= box.commits.Keys
  {
    && VectorSum(q, sum, done, Vectors(q, box))
    && (forall from :: from in done ==> |box.commits[from]| <= |sum|)
    && (exists from :: from in done && |box.commits[from]| == |sum|)
  }

  method CombineOne(q: nat, x: nat, box: Inbox, ghost done: set<Id>, y: nat, combined: Option<seq<nat>>, from: Id)
      returns (r: Result<(nat, seq<nat>)>)
    requires q > 0 && Progress(q, x, box, done, y, combined) && from in box.commits.Keys - done
    ensures r.Ok? ==> Progress(q, x, box, done + {from}, r.value.0, Some(r.value.1))
    ensures Honest(q, x, box) ==> r.Ok?
  {
    var pts := ParsePoints(q, box.commits[from]);
    if pts.Err? {
      return Err(pts.reason);
    }
    if from !in box.subShares || box.subShares[from].None? {
      return Err("reshare: missing sub-share");
    }
    var g := box.subShares[from].value;
    var ok := ShareVerifies(q, pts.value, x, g);
    if !ok {
      return Err("reshare: unverifiable sub-share");
    }
    SumSplit(done + {from}, Pieces(box), from);
    assert done + {from} - {from} == done;
    var sum := pts.value;
    if combined.None? {
      FirstVector(q, sum, {}, Vectors(q, box), from);
      assert done + {from} == {} + {from};
    } else {
      if |pts.value| != 0 && |pts.value| != |combined.value| {
        return Err("reshare: commitment length mismatch");
      }
      sum := AddVector(q, combined.value, pts.value, done, Vectors(q, box), from);
    }
    assert SumsOf(q, box, done + {from}, sum);
    r := Ok((y + g, sum));
  }

  ghost predicate Combined(q: nat, me: Id, newIndex: nat, box: Inbox, groupPub: nat, s: KeyShare)
    requires q > 0
  {
    && s.id == me && s.x == newIndex && s.groupPub == groupPub && s.pubShare == Scale(q, s.share, 1) && s.globalVK == []
    && s.share == Sum(box.commits.Keys, Pieces(box)) % q
    && VectorSum(q, s.vk, box.commits.Keys, Vectors(q, box))
    && OnCommitments(q, s.vk, newIndex, s.share) && Loads(q, FileOf(s))
  }

  lemma CombinedVerifies(q: nat, x: nat, box: Inbox, combined: seq<nat>, y: int)
    requires q > 0 && forall from :: from in box.commits ==> PieceOk(q, box, x, from)
    requires VectorSum(q, combined, box.commits.Keys, Vectors(q, box)) && y == Sum(box.commits.Keys, Pieces(box))
    requires forall from :: from in box.commits ==> |box.commits[from]| <= |combined|
    ensures OnCommitments(q, combined, x, y % q)
    ensures Parses(q, Points32(combined)) && Parsed(q, Points32(combined)) == combined
  {
    forall from | from in box.commits.Keys ensures OnVector(q, Vectors(q, box), from, x, Pieces(box)(from)) {
      assert PieceOk(q, box, x, from);
    }
    CongMod(q, y);
    SharesAddUp(q, combined, box.commits.Keys, Vectors(q, box), Pieces(box), x, y % q);
    forall j | 0 <= j < |combined| ensures combined[j] < q {
      assert EntrySum(q, combined[j], box.commits.Keys, Vectors(q, box), j);
    }
    PointsRoundTrip(q, combined);
  }

  // ---------------------------------------------------------- the key is kept

  /** The old holders are points of f and each split its share, weighted over the whole set, with its
      own random coefficients g[id][1..]. */
  ghost predicate OldHolders(q: Prime, f: seq<int>, keys: set<Id>, xs: map<Id, int>, ys: map<Id, nat>,
                             g: map<Id, seq<int>>, tNew: nat)
    requires DistinctPoints(q, keys, xs)
  {
    && |f| <= |keys| && keys == ys.Keys == g.Keys && 1 <= tNew
    && forall id :: id in keys ==> OldHolder(q, f, keys, xs, ys, g, tNew, id)
  }

  ghost predicate OldHolder(q: Prime, f: seq<int>, keys: set<Id>, xs: map<Id, int>, ys: map<Id, nat>,
                            g: map<Id, seq<int>>, tNew: nat, id: Id)
    requires DistinctPoints(q, keys, xs) && id in keys && keys == ys.Keys == g.Keys
  {
    PointsAreDistinct(q, keys, xs);
    && |g[id]| == tNew && tNew >= 1 && Cong(q, ys[id], Eval(f, XOf(xs, id)))
    && Cong(q, g[id][0], Coefficient(q, keys, xs, id) * ys[id])
  }

  /** The polynomial the new shares lie on: the sum of the old holders' polynomials. */
  ghost function NewPolynomial(keys: set<Id>, g: map<Id, seq<int>>, tNew: nat): (f: seq<int>)
    ensures |f| == tNew
  {
    SumOfVectors(keys, g, tNew)
  }

  /** What ReshareSplit hides is that weighted share, whatever order the old set was listed in. */
  lemma SplitHidesWeightedShare(q: Prime, keys: set<Id>, xs: map<Id, int>, ids: seq<Id>, id: Id, y: nat)
    requires DistinctPoints(q, keys, xs) && Enumerates(ids, keys) && id in keys
    ensures q > 0 && LagrangeValue(q, XOf(xs, id), XsOf(xs, ids)).Some? && Points(q, PointsOf(keys, xs))
    ensures Cong(q, WeightedShare(q, LagrangeValue(q, XOf(xs, id), XsOf(xs, ids)).value, y),
                 Coefficient(q, keys, xs, id) * y)
  {
    LagrangeOfSigner(q, keys, xs, ids, id);
    var lam := LagrangeValue(q, XOf(xs, id), XsOf(xs, ids)).value;
    CongMod(q, lam * y);
    CongEqual(q, y, y);
    CongMul(q, lam, Coefficient(q, keys, xs, id), y, y);
    CongTrans(q, (lam * y) % q, lam * y, Coefficient(q, keys, xs, id) * y);
  }

  /** A new member's share, summed from honest splits, is a point of the new polynomial. */
  lemma NewShareOnPolynomial(q: Prime, keys: set<Id>, g: map<Id, seq<int>>, tNew: nat, x: int, pieces: Id -> int,
                             share: int)
    requires keys <= g.Keys && forall id :: id in keys ==> |g[id]| == tNew
    requires forall id :: id in keys ==> OnVector(q, g, id, x, pieces(id))
    requires Cong(q, share, Sum(keys, pieces))
    ensures Cong(q, share, Eval(NewPolynomial(keys, g, tNew), x))
  {
    EvalOfSum(keys, g, tNew, x);
    forall id | id in keys ensures Cong(q, pieces(id), EvalsAt(g, x)(id)) {
      assert OnVector(q, g, id, x, pieces(id));
      CongSym(q, Eval(g[id], x), pieces(id));
    }
    SumCong(q, keys, pieces, EvalsAt(g, x));
    CongTrans(q, share, Sum(keys, pieces), Sum(keys, EvalsAt(g, x)));
  }

  lemma HiddenTerm(q: Prime, f: seq<int>, keys: set<Id>, xs: map<Id, int>, ys: map<Id, nat>, g: map<Id, seq<int>>,
                   tNew: nat, id: Id)
    requires DistinctPoints(q, keys, xs) && OldHolders(q, f, keys, xs, ys, g, tNew) && id in keys
    requires Points(q, PointsOf(keys, xs))
    ensures Cong(q, EvalsAt(g, 0)(id), KeyTerms(q, keys, xs, f)(id))
  {
    assert OldHolder(q, f, keys, xs, ys, g, tNew, id);
    var l, y, v := Coefficient(q, keys, xs, id), ys[id], Eval(f, XOf(xs, id));
    CongScale(q, l, y, v);
    CongTrans(q, g[id][0], l * y, l * v);
    assert Eval(g[id], 0) == g[id][0] + 0 * Eval(g[id][1..], 0);
  }

  /** Resharing keeps the key: the new shares lie on one polynomial with tNew coefficients whose value
      at zero is the old one's. */
  lemma ReshareKeepsSecret(q: Prime, f: seq<int>, keys: set<Id>, xs: map<Id, int>, ys: map<Id, nat>,
                           g: map<Id, seq<int>>, tNew: nat)
    requires DistinctPoints(q, keys, xs) && OldHolders(q, f, keys, xs, ys, g, tNew)
    ensures Cong(q, Eval(NewPolynomial(keys, g, tNew), 0), Eval(f, 0))
  {
    PointsAreDistinct(q, keys, xs);
    forall id | id in keys ensures Cong(q, EvalsAt(g, 0)(id), KeyTerms(q, keys, xs, f)(id)) {
      HiddenTerm(q, f, keys, xs, ys, g, tNew, id);
    }
    SumCong(q, keys, EvalsAt(g, 0), KeyTerms(q, keys, xs, f));
    KeyTermsSum(q, keys, xs, f);
    forall id | id in keys ensures |g[id]| <= tNew {
      assert OldHolder(q, f, keys, xs, ys, g, tNew, id);
    }
    EvalOfSum(keys, g, tNew, 0);
    CongTrans(q, Sum(keys, EvalsAt(g, 0)), Sum(keys, KeyTerms(q, keys, xs, f)), Eval(f, 0));
  }

  // --------------------------------------------------------------- end to end

  /** One old holder: its share, its random coefficients, the order it listed the old holders in, and
      what ReshareSplit returned. */
  datatype Holder = Holder(y: nat, coeff: seq<nat>, order: seq<Id>, split: Split)

  /** A resharing over the old members' indices xs, for the new indices newSet. */
  datatype Handover = Handover(holders: map<Id, Holder>, xs: map<Id, int>, newSet: seq<nat>)

  /** The constant each holder hides, and its whole polynomial. */
  function Hidden(q: nat, o: Handover, id: Id): nat
    requires q > 0 && id in o.holders
  {
    var lam := LagrangeValue(q, XOf(o.xs, id), XsOf(o.xs, o.holders[id].order));
    WeightedShare(q, if lam.Some? then lam.value else 0, o.holders[id].y)
  }

  function Polynomial(q: nat, o: Handover, id: Id): (p: seq<nat>)
    requires q > 0 && id in o.holders
    ensures |p| == |o.holders[id].coeff| + 1 && p[0] == Hidden(q, o, id)
  {
    [Hidden(q, o, id)] + o.holders[id].coeff
  }

  function Polynomials(q: nat, o: Handover): map<Id, seq<int>>
    requires q > 0
  {
    map id | id in o.holders :: Polynomial(q, o, id)
  }

  function OldShares(o: Handover): map<Id, nat> {
    map id | id in o.holders :: o.holders[id].y
  }

  /** The old shares are points of f at the members' indices, and every holder ran ReshareSplit on its own. */
  ghost predicate Handed(q: nat, f: seq<int>, tNew: nat, o: Handover)
    requires q > 0
  {
    && DistinctPoints(q, o.holders.Keys, o.xs) && |f| <= |o.holders.Keys| && 1 <= tNew
    && forall id :: id in o.holders ==> HandedBy(q, f, tNew, o, id)
  }

  ghost predicate HandedBy(q: nat, f: seq<int>, tNew: nat, o: Handover, id: Id)
    requires q > 0 && id in o.holders
  {
    var holder := o.holders[id];
    && XOf(o.xs, id) == MemberX(id) && Cong(q, holder.y, Eval(f, MemberX(id))) && |holder.coeff| == tNew - 1
    && Enumerates(holder.order, o.holders.Keys)
    && SplitOf(q, Hidden(q, o, id), holder.coeff, o.newSet, holder.split)
  }

  /** What ReshareSplit returned makes each holder one of the old holders of the algebra. */
  lemma SplitsAreOldHolders(q: Prime, f: seq<int>, tNew: nat, o: Handover)
    requires q > 0 && Handed(q, f, tNew, o)
    ensures OldHolders(q, f, o.holders.Keys, o.xs, OldShares(o), Polynomials(q, o), tNew)
  {
    forall id | id in o.holders.Keys
      ensures OldHolder(q, f, o.holders.Keys, o.xs, OldShares(o), Polynomials(q, o), tNew, id)
    {
      SplitIsOldHolder(q, f, tNew, o, id);
    }
  }

  lemma SplitIsOldHolder(q: Prime, f: seq<int>, tNew: nat, o: Handover, id: Id)
    requires q > 0 && Handed(q, f, tNew, o) && id in o.holders.Keys
    ensures OldHolder(q, f, o.holders.Keys, o.xs, OldShares(o), Polynomials(q, o), tNew, id)
  {
    assert HandedBy(q, f, tNew, o, id);
    SplitHidesWeightedShare(q, o.holders.Keys, o.xs, o.holders[id].order, id, o.holders[id].y);
  }

  /** A new member's inbox holds the published vectors, and everything in it verified at index x;
      what the sub-shares are does not matter further. */
  ghost predicate Received(q: nat, o: Handover, x: nat, box: Inbox) {
    box.commits.Keys == o.holders.Keys && forall from :: from in o.holders ==> ReceivedFrom(q, o, x, box, from)
  }

  ghost predicate ReceivedFrom(q: nat, o: Handover, x: nat, box: Inbox, from: Id)
    requires from in o.holders && from in box.commits
  {
    box.commits[from] == Points32(o.holders[from].split.commits) && PieceOk(q, box, x, from)
  }

  lemma PieceOnVector(q: nat, f: seq<int>, tNew: nat, o: Handover, x: nat, box: Inbox, from: Id)
    requires q > 0 && from in o.holders && from in box.commits
    requires HandedBy(q, f, tNew, o, from) && ReceivedFrom(q, o, x, box, from)
    ensures OnVector(q, Polynomials(q, o), from, x, Pieces(box)(from))
  {
    var p := Polynomial(q, o, from);
    var c := CommitTo(q, p);
    assert Parsed(q, Points32(c)) == c;
    CommitmentsEvaluate(q, p, x);
    CongSym(q, Eval(c, x), Eval(p, x));
    CongTrans(q, Eval(p, x), Eval(c, x), Pieces(box)(from));
  }

  lemma PiecesOnVectors(q: nat, f: seq<int>, tNew: nat, o: Handover, x: nat, box: Inbox)
    requires q > 0 && Handed(q, f, tNew, o) && Received(q, o, x, box)
    ensures forall id :: id in o.holders.Keys ==> |Polynomials(q, o)[id]| == tNew
    ensures forall id :: id in o.holders.Keys ==> OnVector(q, Polynomials(q, o), id, x, Pieces(box)(id))
  {
    forall id | id in o.holders.Keys
      ensures |Polynomials(q, o)[id]| == tNew && OnVector(q, Polynomials(q, o), id, x, Pieces(box)(id))
    {
      assert HandedBy(q, f, tNew, o, id) && ReceivedFrom(q, o, x, box, id);
      PieceOnVector(q, f, tNew, o, x, box, id);
    }
  }

  /** What ReshareCombine returned is a point of the new polynomial. */
  lemma CombinedOnPolynomial(q: Prime, f: seq<int>, tNew: nat, o: Handover, x: nat, box: Inbox, me: Id, groupPub: nat,
                             share: KeyShare)
    requires q > 0 && Handed(q, f, tNew, o) && Received(q, o, x, box) && Combined(q, me, x, box, groupPub, share)
    ensures Cong(q, share.share, Eval(NewPolynomial(o.holders.Keys, Polynomials(q, o), tNew), x))
  {
    var keys := o.holders.Keys;
    PiecesOnVectors(q, f, tNew, o, x, box);
    CongMod(q, Sum(keys, Pieces(box)));
    NewShareOnPolynomial(q, keys, Polynomials(q, o), tNew, x, Pieces(box), share.share);
  }

  /** Signer id of the session holds what ReshareCombine returned for its inbox. */
  ghost predicate Reshared(q: nat, o: Handover, s: Session, id: Id, box: Inbox, share: KeyShare)
    requires q > 0 && id in s.pubs
  {
    && Received(q, o, share.x, box) && Combined(q, id, share.x, box, s.groupPub, share)
    && s.pubs[id] == share.pubShare && XOf(s.xs, id) == share.x
  }

  lemma ResharedOnPolynomial(q: Prime, f: seq<int>, tNew: nat, o: Handover, s: Session, id: Id, box: Inbox,
                             share: KeyShare)
    requires q > 0 && Handed(q, f, tNew, o) && id in s.pubs && Reshared(q, o, s, id, box, share)
    ensures OnPolynomial(q, NewPolynomial(o.holders.Keys, Polynomials(q, o), tNew), s, id)
  {
    var p := NewPolynomial(o.holders.Keys, Polynomials(q, o), tNew);
    CombinedOnPolynomial(q, f, tNew, o, share.x, box, id, s.groupPub, share);
    OwnPoint(q, share.share);
    CongTrans(q, s.pubs[id], share.share, Eval(p, share.x));
  }

  lemma AllReshared(q: Prime, f: seq<int>, tNew: nat, o: Handover, s: Session, boxes: map<Id, Inbox>,
                    shares: map<Id, KeyShare>)
    requires q > 0 && Handed(q, f, tNew, o) && s.pubs.Keys <= boxes.Keys && s.pubs.Keys <= shares.Keys
    requires forall id :: id in s.pubs ==> Reshared(q, o, s, id, boxes[id], shares[id])
    ensures forall id :: id in s.pubs ==> OnPolynomial(q, NewPolynomial(o.holders.Keys, Polynomials(q, o), tNew), s, id)
  {
    forall id | id in s.pubs
      ensures OnPolynomial(q, NewPolynomial(o.holders.Keys, Polynomials(q, o), tNew), s, id)
    {
      ResharedOnPolynomial(q, f, tNew, o, s, id, boxes[id], shares[id]);
    }
  }

  lemma NewPolynomialKey(q: Prime, f: seq<int>, tNew: nat, o: Handover, group: int)
    requires q > 0 && Handed(q, f, tNew, o) && Cong(q, group, Eval(f, 0))
    ensures Cong(q, group, Eval(NewPolynomial(o.holders.Keys, Polynomials(q, o), tNew), 0))
  {
    var p := NewPolynomial(o.holders.Keys, Polynomials(q, o), tNew);
    SplitsAreOldHolders(q, f, tNew, o);
    ReshareKeepsSecret(q, f, o.holders.Keys, o.xs, OldShares(o), Polynomials(q, o), tNew);
    CongSym(q, Eval(p, 0), Eval(f, 0));
    CongTrans(q, group, Eval(f, 0), Eval(p, 0));
  }

  /** New members hold shares of one polynomial with tNew coefficients and the old group key. */
  lemma ResharedShares(q: Prime, f: seq<int>, tNew: nat, o: Handover, s: Session, boxes: map<Id, Inbox>,
                       shares: map<Id, KeyShare>)
    requires q > 0 && Handed(q, f, tNew, o) && s.pubs.Keys <= boxes.Keys && s.pubs.Keys <= shares.Keys
    requires forall id :: id in s.pubs ==> Reshared(q, o, s, id, boxes[id], shares[id])
    requires Cong(q, s.groupPub, Eval(f, 0)) && |s.pubs| >= tNew && DistinctPoints(q, s.pubs.Keys, s.xs)
    ensures SharesOf(q, NewPolynomial(o.holders.Keys, Polynomials(q, o), tNew), s)
  {
    NewPolynomialKey(q, f, tNew, o, s.groupPub);
    AllReshared(q, f, tNew, o, s, boxes, shares);
  }

  /** End to end: any tNew new members that ran ReshareCombine on what the old holders' ReshareSplit
      published sign under the unchanged group key. */
  lemma NewMembersSign(q: Prime, h: Hashes, f: seq<int>, tNew: nat, o: Handover, s: Session, boxes: map<Id, Inbox>,
                       shares: map<Id, KeyShare>, z: nat)
    requires q > 0 && Handed(q, f, tNew, o) && s.pubs.Keys <= boxes.Keys && s.pubs.Keys <= shares.Keys
    requires forall id :: id in s.pubs ==> Reshared(q, o, s, id, boxes[id], shares[id])
    requires Cong(q, s.groupPub, Eval(f, 0)) && |s.pubs| >= tNew && DistinctPoints(q, s.pubs.Keys, s.xs)
    requires s.pubs.Keys == s.commits.Keys == s.shares.Keys
    requires forall id :: id in s.shares ==> Verified(q, h, s, id, s.shares[id])
    requires z == Sum(s.shares.Keys, ShareAt(s.shares)) % q
    ensures Signs(q, h, s, z)
  {
    ResharedShares(q, f, tNew, o, s, boxes, shares);
    AggregateSigns(q, h, NewPolynomial(o.holders.Keys, Polynomials(q, o), tNew), s, z);
  }

  /** Each sender's vector and its sub-share for x. */
  ghost predicate Delivered(o: Handover, x: nat, box: Inbox, from: Id)
    requires from in o.holders
  {
    && from in box.commits && box.commits[from] == Points32(o.holders[from].split.commits)
    && from in box.subShares && x in o.holders[from].split.shares
    && box.subShares[from] == Some(o.holders[from].split.shares[x])
  }

  lemma DeliveredVerifies(q: nat, f: seq<int>, tNew: nat, o: Handover, x: nat, box: Inbox, from: Id)
    requires q > 0 && tNew >= 1 && from in o.holders && HandedBy(q, f, tNew, o, from) && Delivered(o, x, box, from)
    ensures PieceOk(q, box, x, from) && |box.commits[from]| == tNew
  {
    var c := CommitTo(q, Polynomial(q, o, from));
    HonestShareVerifies(q, o.holders[from].coeff, Hidden(q, o, from), x);
    PointsRoundTrip(q, c);
  }

  lemma AllDelivered(q: nat, f: seq<int>, tNew: nat, o: Handover, x: nat, box: Inbox)
    requires q > 0 && Handed(q, f, tNew, o) && box.commits.Keys == o.holders.Keys
    requires forall from :: from in o.holders ==> Delivered(o, x, box, from)
    ensures Received(q, o, x, box)
    ensures forall from :: from in box.commits ==> PieceOk(q, box, x, from) && |box.commits[from]| == tNew
  {
    forall from | from in o.holders ensures ReceivedFrom(q, o, x, box, from) && |box.commits[from]| == tNew {
      assert HandedBy(q, f, tNew, o, from) && Delivered(o, x, box, from);
      DeliveredVerifies(q, f, tNew, o, x, box, from);
    }
  }

  /** Honest delivery never fails: with every sender's vector and sub-share in the inbox,
      ReshareCombine succeeds. */
  lemma HonestInbox(q: nat, f: seq<int>, tNew: nat, o: Handover, x: nat, box: Inbox)
    requires q > 0 && Handed(q, f, tNew, o) && o.holders != map[]
    requires box.commits.Keys == box.subShares.Keys == o.holders.Keys
    requires forall from :: from in o.holders ==> Delivered(o, x, box, from)
    ensures Honest(q, x, box) && Received(q, o, x, box)
  {
    AllDelivered(q, f, tNew, o, x, box);
    assert |box.commits.Keys| == |box.commits| && |box.subShares.Keys| == |box.subShares|;
    var k :| k in o.holders;
    assert k in box.commits;
  }

  // -------------------------------------------------------------- any senders

  /** Signer id of the session holds what ReshareCombine returned for an inbox with these vectors,
      whoever sent them. */
  ghost predicate CombinedFrom(q: nat, vectors: map<Id, seq<PointWire>>, s: Session, id: Id, box: Inbox,
                               share: KeyShare)
    requires q > 0 && id in s.pubs
  {
    && box.commits == vectors && Combined(q, id, share.x, box, s.groupPub, share)
    && SumsOf(q, box, box.commits.Keys, share.vk)
    && s.pubs[id] == share.pubShare && XOf(s.xs, id) == share.x
  }

  /** Members whose inboxes hold the same vectors hold the same summed vector. */
  lemma SameVector(q: nat, a: Inbox, b: Inbox, u: seq<nat>, v: seq<nat>)
    requires q > 0 && a.commits == b.commits
    requires SumsOf(q, a, a.commits.Keys, u) && SumsOf(q, b, b.commits.Keys, v)
    ensures u == v
  {
    assert Vectors(q, a) == Vectors(q, b);
    VectorSumUnique(q, u, v, a.commits.Keys, Vectors(q, a));
  }

  lemma CombinedShareAt(q: nat, vectors: map<Id, seq<PointWire>>, s: Session, id: Id, box: Inbox, share: KeyShare,
                        vk: seq<nat>, box0: Inbox)
    requires q > 0 && id in s.pubs && CombinedFrom(q, vectors, s, id, box, share)
    requires box0.commits == vectors && SumsOf(q, box0, box0.commits.Keys, vk)
    ensures OnPolynomial(q, vk, s, id)
  {
    SameVector(q, box, box0, share.vk, vk);
    OwnPoint(q, share.share);
    CongSym(q, Eval(vk, share.x), share.share);
    CongTrans(q, s.pubs[id], share.share, Eval(vk, share.x));
  }

  /** Whatever the senders did, members that combined the same vectors hold shares of one polynomial,
      their common summed vector. */
  lemma CombinedShares(q: nat, vectors: map<Id, seq<PointWire>>, s: Session, boxes: map<Id, Inbox>,
                       shares: map<Id, KeyShare>, first: Id)
    requires q > 0 && first in s.pubs && s.pubs.Keys <= boxes.Keys && s.pubs.Keys <= shares.Keys
    requires forall id :: id in s.pubs ==> CombinedFrom(q, vectors, s, id, boxes[id], shares[id])
    requires |s.pubs| >= |shares[first].vk| && DistinctPoints(q, s.pubs.Keys, s.xs)
    ensures SharesOn(q, shares[first].vk, s)
  {
    assert CombinedFrom(q, vectors, s, first, boxes[first], shares[first]);
    forall id | id in s.pubs ensures OnPolynomial(q, shares[first].vk, s, id) {
      CombinedShareAt(q, vectors, s, id, boxes[id], shares[id], shares[first].vk, boxes[first]);
    }
  }

  lemma KeyOfVector(q: nat, vectors: map<Id, seq<PointWire>>, s: Session, id: Id, box: Inbox, share: KeyShare)
    requires q > 0 && id in s.pubs && CombinedFrom(q, vectors, s, id, box, share)
    requires share.vk != [] && s.groupPub < q
    ensures Cong(q, Eval(share.vk, 0), s.groupPub) <==> share.vk[0] == s.groupPub
  {
    assert Eval(share.vk, 0) == share.vk[0];
    if share.vk[0] == s.groupPub {
      CongEqual(q, share.vk[0], s.groupPub);
    } else if Cong(q, share.vk[0], s.groupPub) {
      CongSmall(q, share.vk[0], s.groupPub);
    }
  }

  /** So enough of them sign under the group key if and only if it is entry 0 of that vector, which
      ReshareCombine does not compare it with. */
  lemma AnySendersSignExactly(q: Prime, h: Hashes, vectors: map<Id, seq<PointWire>>, s: Session, boxes: map<Id, Inbox>,
                              shares: map<Id, KeyShare>, first: Id, z: nat)
    requires q > 0 && first in s.pubs && s.pubs.Keys <= boxes.Keys && s.pubs.Keys <= shares.Keys
    requires forall id :: id in s.pubs ==> CombinedFrom(q, vectors, s, id, boxes[id], shares[id])
    requires |s.pubs| >= |shares[first].vk| >= 1 && DistinctPoints(q, s.pubs.Keys, s.xs) && s.groupPub < q
    requires s.pubs.Keys == s.commits.Keys == s.shares.Keys && !Cong(q, s.c, 0)
    requires forall id :: id in s.shares ==> Verified(q, h, s, id, s.shares[id])
    requires z == Sum(s.shares.Keys, ShareAt(s.shares)) % q
    ensures Signs(q, h, s, z) <==> shares[first].vk[0] == s.groupPub
  {
    CombinedShares(q, vectors, s, boxes, shares, first);
    KeyOfVector(q, vectors, s, first, boxes[first], shares[first]);
    SignsExactly(q, h, shares[first].vk, s, z);
  }
}
