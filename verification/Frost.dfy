// FROST signing in frost.go: the two-round signer, the aggregator that checks every
// partial signature, and the in-process round. Nonces are inputs; hashes are
// arbitrary functions; encoded points and scalars may be malformed.

module Frost {
  import opened Wrappers
  import opened Orders
  import opened PrimeField
  import opened Interpolation
  import opened Group

  type Id = string
  type Msg = seq<nat>

  datatype PointWire = Enc(p: nat) | BadPoint
  datatype CommitWire = DE(d: PointWire, e: PointWire) | BadLength
  datatype ScalarWire = Scalar(v: nat) | BadScalar

  /** decodePoint: malformed bytes fail. */
  function Decode(q: nat, w: PointWire): Option<nat> {
    if w.Enc? && w.p < q then Some(w.p) else None
  }

  /** The two SHA-512 uses: the binding factor over (A, m, commitments, id), the challenge over
      (R, A, m), and the blinded message over (m, r). */
  datatype Hashes = Hashes(
    binding: (nat, Msg, map<Id, CommitWire>, Id) -> nat,
    challenge: (nat, nat, Msg) -> nat, blind: (Msg, nat) -> Msg)

  datatype Transcript = Transcript(m: Msg, commits: map<Id, CommitWire>, xs: map<Id, int>, c: nat)

  function Rho(q: nat, h: Hashes, pub: nat, m: Msg, commits: map<Id, CommitWire>, id: Id): (r: nat)
    requires q > 0
  {
    h.binding(pub, m, commits, id) % q
  }

  /** A Go map lookup: a missing participant reads as index 0. */
  function XOf(xs: map<Id, int>, id: Id): int {
    if id in xs then xs[id] else 0
  }

  function XsOf(xs: map<Id, int>, ids: seq<Id>): seq<int> {
    seq(|ids|, i requires 0 <= i < |ids| => XOf(xs, ids[i]))
  }

  // ----------------------------------------------------- points of the signers

  ghost function PointsOf(keys: set<Id>, xs: map<Id, int>): set<int> {
    set id | id in keys :: XOf(xs, id)
  }

  /** No two signers share an index modulo q. */
  ghost predicate DistinctPoints(q: int, keys: set<Id>, xs: map<Id, int>) {
    forall a, b :: a in keys && b in keys && a != b ==> !Cong(q, XOf(xs, b) - XOf(xs, a), 0)
  }

  lemma PointsAreDistinct(q: int, keys: set<Id>, xs: map<Id, int>)
    requires DistinctPoints(q, keys, xs)
    ensures Points(q, PointsOf(keys, xs))
    ensures forall a, b :: a in keys && b in keys && XOf(xs, a) == XOf(xs, b) ==> a == b
  {
    forall a, b | a in keys && b in keys && XOf(xs, a) == XOf(xs, b) ensures a == b {
      if a != b {
        CongEqual(q, XOf(xs, b) - XOf(xs, a), 0);
      }
    }
  }

  lemma EnumeratedPoints(q: int, keys: set<Id>, xs: map<Id, int>, ids: seq<Id>)
    requires DistinctPoints(q, keys, xs) && Enumerates(ids, keys)
    ensures Distinct(XsOf(xs, ids)) && Members(XsOf(xs, ids)) == PointsOf(keys, xs)
  {
    PointsAreDistinct(q, keys, xs);
    var l := XsOf(xs, ids);
    forall i, j | 0 <= i < j < |l| ensures l[i] != l[j] {
      assert ids[i] in Members(ids) && ids[j] in Members(ids);
    }
    forall x | x in PointsOf(keys, xs) ensures x in Members(l) {
      var id :| id in keys && XOf(xs, id) == x;
      var i :| 0 <= i < |ids| && ids[i] == id;
      assert l[i] == x;
    }
    forall x | x in Members(l) ensures x in PointsOf(keys, xs) {
      var i :| 0 <= i < |l| && l[i] == x;
      assert ids[i] in Members(ids);
    }
  }

  /** The Lagrange coefficient of signer id over the signing set. */
  ghost function Coefficient(q: Prime, keys: set<Id>, xs: map<Id, int>, id: Id): int
    requires Points(q, PointsOf(keys, xs)) && id in keys
  {
    Lambda(q, PointsOf(keys, xs), XOf(xs, id))
  }

  lemma LagrangeOfSigner(q: Prime, keys: set<Id>, xs: map<Id, int>, ids: seq<Id>, id: Id)
    requires DistinctPoints(q, keys, xs) && Enumerates(ids, keys) && id in keys
    ensures q > 0 && Points(q, PointsOf(keys, xs))
    ensures LagrangeValue(q, XOf(xs, id), XsOf(xs, ids)).Some?
    ensures Cong(q, LagrangeValue(q, XOf(xs, id), XsOf(xs, ids)).value, Coefficient(q, keys, xs, id))
  {
    PointsAreDistinct(q, keys, xs);
    EnumeratedPoints(q, keys, xs, ids);
    LagrangeIsLambda(q, XOf(xs, id), XsOf(xs, ids));
  }

  // ------------------------------------------------------------------- signer

  /** z = d + rho*e + c*lambda*share, the partial signature. */
  function PartialValue(q: nat, d: nat, e: nat, rho: nat, c: nat, lam: nat, share: nat): (z: nat)
    requires q > 0
    ensures z < q
  {
    (rho * e + d + c * (lam * share)) % q
  }

  /** D || E for the two nonces. */
  function CommitmentOf(q: nat, nonce: (nat, nat)): CommitWire
    requires q > 0
  {
    DE(Enc(Scale(q, nonce.0, 1)), Enc(Scale(q, nonce.1, 1)))
  }

  class FrostSigner {
    const id: Id
    const x: int
    const share: nat
    const groupPub: nat
    const pubShare: nat
    var d: Option<nat>
    var e: Option<nat>
    var used: bool

    constructor (id: Id, x: int, share: nat, groupPub: nat, pubShare: nat)
      ensures this.id == id && this.x == x && this.share == share
      ensures this.groupPub == groupPub && this.pubShare == pubShare
      ensures d == None && e == None && !used
    {
      this.id, this.x, this.share, this.groupPub, this.pubShare := id, x, share, groupPub, pubShare;
      d, e, used := None, None, false;
    }

    /** Round one, once per signer: the two random nonces are d0 and e0. */
    method Commit(q: nat, d0: nat, e0: nat) returns (r: Result<CommitWire>)
      requires q > 0
      modifies this
      ensures old(used) ==> r.Err? && used && d == old(d) && e == old(e)
      ensures !old(used) ==> r == Ok(CommitmentOf(q, (d0, e0)))
      ensures !old(used) ==> used && d == Some(d0) && e == Some(e0)
    {
      if used {
        return Err("frost: signer reused for a second message");
      }
      used := true;
      d := Some(d0);
      e := Some(e0);
      var dp := ScalarMult(q, d0, 1);
      var ep := ScalarMult(q, e0, 1);
      r := Ok(DE(Enc(dp), Enc(ep)));
    }

    /** Round two: the partial for some order of the participants. */
    method SignShare(q: nat, h: Hashes, t: Transcript) returns (r: Result<nat>)
      requires q > 0
      ensures d.None? || e.None? || t.commits == map[] || t.xs == map[] ==> r.Err?
      ensures d.Some? && e.Some? && t.commits != map[] && t.xs != map[] ==>
                exists ids :: PartialOf(q, h, this, (d.value, e.value), t, ids, r)
      ensures d.Some? && e.Some? && t.commits != map[] && t.xs != map[] ==>
                exists ids ::
                  Enumerates(ids, t.commits.Keys) &&
                  var lam := LagrangeValue(q, x, XsOf(t.xs, ids));
                  var rho := h.binding(groupPub, t.m, t.commits, id) % q;
                  (r.Ok? <==> lam.Some?)
                  && (r.Ok? ==> r.value == (d.value + rho * e.value + (t.c % q) * (lam.value * share)) % q)
    {
      if d.None? || e.None? {
        return Err("frost: no commitment made");
      }
      if |t.commits| == 0 || |t.xs| == 0 {
        return Err("frost: empty transcript");
      }
      var rho := Rho(q, h, groupPub, t.m, t.commits, id);
      var ids := OrderOf(t.commits.Keys);
      var lam := Lagrange(q, x, XsOf(t.xs, ids));
      if lam.None? {
        r := Err("frost: singular denominator");
      } else {
        var c := t.c % q;
        r := Ok((rho * e.value + d.value + c * (lam.value * share)) % q);
      }
      assert PartialOf(q, h, this, (d.value, e.value), t, ids, r);
    }
  }

  /** r is the partial that signer computes from its two nonces when it lists the participants as ids. */
  ghost predicate PartialOf(q: nat, h: Hashes, signer: FrostSigner, nonce: (nat, nat), t: Transcript, ids: seq<Id>,
                            r: Result<nat>)
    requires q > 0
  {
    var lam := LagrangeValue(q, signer.x, XsOf(t.xs, ids));
    && Enumerates(ids, t.commits.Keys) && (r.Ok? <==> lam.Some?)
    && (r.Ok? ==> r.value == PartialValue(q, nonce.0, nonce.1, Rho(q, h, signer.groupPub, t.m, t.commits, signer.id),
                                          t.c % q, lam.value, signer.share))
  }

  // --------------------------------------------------------------- aggregator

  /** The aggregator's fields at one moment. */
  datatype Session = Session(groupPub: nat, pubs: map<Id, nat>, commits: map<Id, CommitWire>, shares: map<Id, nat>,
                             r: Option<nat>, c: nat, m: Msg, xs: map<Id, int>)

  predicate Decodable(q: nat, de: CommitWire) {
    de.DE? && Decode(q, de.d).Some? && Decode(q, de.e).Some?
  }

  /** D + rho*E of one signer. */
  ghost function NonceOf(q: nat, h: Hashes, pub: nat, m: Msg, commits: map<Id, CommitWire>, id: Id): int
    requires q > 0
  {
    if id in commits && Decodable(q, commits[id])
    then commits[id].d.p + Rho(q, h, pub, m, commits, id) * commits[id].e.p
    else 0
  }

  ghost function Nonces(q: nat, h: Hashes, pub: nat, m: Msg, commits: map<Id, CommitWire>): Id -> int
    requires q > 0
  {
    id => NonceOf(q, h, pub, m, commits, id)
  }

  ghost predicate AllDecodable(q: nat, commits: map<Id, CommitWire>) {
    forall id :: id in commits ==> Decodable(q, commits[id])
  }

  lemma AddNonce(q: nat, h: Hashes, pub: nat, m: Msg, commits: map<Id, CommitWire>, done: set<Id>, point: nat, id: Id)
    requires q > 0 && id in commits && id !in done && Decodable(q, commits[id])
    requires Cong(q, point, Sum(done, Nonces(q, h, pub, m, commits)))
    ensures var de := commits[id];
            Cong(q, PointAdd(q, point, PointAdd(q, de.d.p, Scale(q, Rho(q, h, pub, m, commits, id), de.e.p))),
                 Sum(done + {id}, Nonces(q, h, pub, m, commits)))
  {
    var d, e, rho := commits[id].d.p, commits[id].e.p, Rho(q, h, pub, m, commits, id);
    var nonces := Nonces(q, h, pub, m, commits);
    CongEqual(q, d, d);
    CongEqual(q, e, e);
    MultipleOfPoint(q, rho, e, e);
    SumOfPoints(q, d, Scale(q, rho, e), d, rho * e);
    SumOfPoints(q, point, PointAdd(q, d, Scale(q, rho, e)), Sum(done, nonces), d + rho * e);
    SumSplit(done + {id}, nonces, id);
    assert done + {id} - {id} == done;
    assert nonces(id) == d + rho * e;
  }

  /** The aggregated nonce point, whatever order the map is walked in. */
  method AggregateNonce(q: nat, h: Hashes, pub: nat, m: Msg, commits: map<Id, CommitWire>) returns (r: Result<nat>)
    requires q > 0
    ensures r.Ok? <==> commits != map[] && AllDecodable(q, commits)
    ensures r.Ok? ==> r.value == NoncePoint(q, h, pub, m, commits)
    ensures r.Ok? ==> r.value < q && forall f: Id -> int ::
              (forall id :: id in commits ==>
                              f(id) == commits[id].d.p + h.binding(pub, m, commits, id) * commits[id].e.p)
              ==> Cong(q, r.value, Sum(commits.Keys, f))
  {
    if |commits| == 0 {
      return Err("frost: need commitments");
    }
    var point: nat, done: set<Id> := 0, {};
    CongEqual(q, 0, 0);
    while done != commits.Keys
      invariant done <= commits.Keys && point < q
      invariant forall id :: id in done ==> Decodable(q, commits[id])
      invariant Cong(q, point, Sum(done, Nonces(q, h, pub, m, commits)))
      decreases commits.Keys - done
    {
      assert commits.Keys == done + (commits.Keys - done);
      var id :| id in commits.Keys - done;
      var de := commits[id];
      if de.BadLength? || Decode(q, de.d).None? || Decode(q, de.e).None? {
        return Err("frost: bad point");
      }
      var rho := Rho(q, h, pub, m, commits, id);
      var bound := ScalarMult(q, rho, de.e.p);
      var own := PointAdd(q, de.d.p, bound);
      AddNonce(q, h, pub, m, commits, done, point, id);
      point, done := PointAdd(q, point, own), done + {id};
    }
    Settled(q, point, Sum(commits.Keys, Nonces(q, h, pub, m, commits)));
    r := Ok(point);
    forall f: Id -> int
      | forall id :: id in commits ==> f(id) == commits[id].d.p + h.binding(pub, m, commits, id) * commits[id].e.p
      ensures Cong(q, r.value, Sum(commits.Keys, f))
    {
      NoncesOverHash(q, h, pub, m, commits, f);
      CongTrans(q, r.value, Sum(commits.Keys, Nonces(q, h, pub, m, commits)), Sum(commits.Keys, f));
    }
  }

  /** The nonces in terms of the hash itself. */
  lemma NoncesOverHash(q: nat, h: Hashes, pub: nat, m: Msg, commits: map<Id, CommitWire>, f: Id -> int)
    requires q > 0 && AllDecodable(q, commits)
    requires forall id :: id in commits ==> f(id) == commits[id].d.p + h.binding(pub, m, commits, id) * commits[id].e.p
    ensures Cong(q, Sum(commits.Keys, Nonces(q, h, pub, m, commits)), Sum(commits.Keys, f))
  {
    forall id | id in commits.Keys ensures Cong(q, Nonces(q, h, pub, m, commits)(id), f(id)) {
      BindingReduced(q, h.binding(pub, m, commits, id), commits[id].d.p, commits[id].e.p);
    }
    SumCong(q, commits.Keys, Nonces(q, h, pub, m, commits), f);
  }

  lemma BindingReduced(q: nat, rho: nat, d: int, e: int)
    requires q > 0
    ensures Cong(q, d + (rho % q) * e, d + rho * e)
  {
    CongMod(q, rho);
    CongEqual(q, e, e);
    CongMul(q, rho % q, rho, e, e);
    CongEqual(q, d, d);
    CongAdd(q, d, d, (rho % q) * e, rho * e);
  }

  /** z*B == D + rho*E + (c*lambda)*A, compared as encoded points. */
  predicate Equation(q: nat, z: nat, d: nat, e: nat, rho: nat, c: nat, lam: nat, pub: nat)
    requires q > 0
  {
    Scale(q, z, 1) == PointAdd(q, PointAdd(q, d, Scale(q, rho, e)), Scale(q, c * lam, pub))
  }

  lemma EquationMeans(q: nat, z: nat, d: nat, e: nat, rho: nat, c: nat, lam: nat, pub: nat, a: int)
    requires q > 0 && Cong(q, pub, a)
    ensures Equation(q, z, d, e, rho, c, lam, pub) <==> Cong(q, z, d + rho * e + (c * lam) * a)
  {
    CongEqual(q, d, d);
    CongEqual(q, e, e);
    MultipleOfPoint(q, rho, e, e);
    SumOfPoints(q, d, Scale(q, rho, e), d, rho * e);
    MultipleOfPoint(q, c * lam, pub, a);
    var ri, ca := PointAdd(q, d, Scale(q, rho, e)), Scale(q, c * lam, pub);
    SumOfPoints(q, ri, ca, d + rho * e, (c * lam) * a);
    SameEncoding(q, z, PointAdd(q, ri, ca), d + rho * e + (c * lam) * a);
  }

  lemma SameEncoding(q: nat, z: nat, point: nat, value: int)
    requires q > 0 && point < q && Cong(q, point, value)
    ensures Scale(q, z, 1) == point <==> Cong(q, z, value)
  {
    Settled(q, point, value);
    assert z * 1 == z;
    CongResidue(q, z, value);
  }

  /** The check in terms of the hash and the scalar as they are, before either is reduced. */
  lemma EquationOverHash(q: nat, z: nat, d: nat, e: nat, rho: nat, c: nat, lam: nat, pub: nat)
    requires q > 0
    ensures Equation(q, z % q, d, e, rho % q, c, lam, pub) <==> Cong(q, z, d + rho * e + (c * lam) * pub)
  {
    CongEqual(q, pub, pub);
    EquationMeans(q, z % q, d, e, rho % q, c, lam, pub, pub);
    BindingReduced(q, rho, d, e);
    CongEqual(q, (c * lam) * pub, (c * lam) * pub);
    CongAdd(q, d + (rho % q) * e, d + rho * e, (c * lam) * pub, (c * lam) * pub);
    CongMod(q, z);
    var small, big := d + (rho % q) * e + (c * lam) * pub, d + rho * e + (c * lam) * pub;
    CongSym(q, small, big);
    if Cong(q, z % q, small) {
      CongTrans(q, z, z % q, small);
      CongTrans(q, z, small, big);
    }
    if Cong(q, z, big) {
      CongTrans(q, z % q, z, big);
      CongTrans(q, z % q, big, small);
    }
  }

  /** The check AddShare makes of partial z from signer id, for some order of the participants. */
  ghost predicate Verified(q: nat, h: Hashes, s: Session, id: Id, z: nat)
    requires q > 0
  {
    && id in s.commits && id in s.pubs && Decodable(q, s.commits[id])
    && exists ids :: Enumerates(ids, s.commits.Keys)
         && var lam := LagrangeValue(q, XOf(s.xs, id), XsOf(s.xs, ids));
            lam.Some? && Equation(q, z, s.commits[id].d.p, s.commits[id].e.p,
              Rho(q, h, s.groupPub, s.m, s.commits, id), s.c, lam.value, s.pubs[id])
  }

  /** The comparison AddShare makes; no coefficient, no acceptance. */
  method CheckEquation(q: nat, z: nat, d: nat, e: nat, rho: nat, c: nat, lam: Option<nat>, pub: nat) returns (ok: bool)
    requires q > 0
    ensures ok <==> lam.Some? && Equation(q, z, d, e, rho, c, lam.value, pub)
  {
    if lam.None? {
      return false;
    }
    var bound := ScalarMult(q, rho, e);
    var ri := PointAdd(q, d, bound);
    var lhs := ScalarMult(q, z, 1);
    var ca := ScalarMult(q, c * lam.value, pub);
    ok := lhs == PointAdd(q, ri, ca);
  }

  /** Everything the check needs is there. */
  predicate Checkable(q: nat, s: Session, id: Id) {
    s.r.Some? && |s.xs| == |s.pubs| && id in s.pubs && id in s.commits && Decodable(q, s.commits[id])
  }

  /** The check fails when the participants are listed as ids. */
  ghost predicate Refuses(q: nat, h: Hashes, s: Session, id: Id, z: nat, ids: seq<Id>)
    requires q > 0 && Checkable(q, s, id)
  {
    var lam := LagrangeValue(q, XOf(s.xs, id), XsOf(s.xs, ids));
    && Enumerates(ids, s.commits.Keys)
    && (lam.None? || !Equation(q, z, s.commits[id].d.p, s.commits[id].e.p, Rho(q, h, s.groupPub, s.m, s.commits, id),
                               s.c, lam.value, s.pubs[id]))
  }

  class FrostAggregator {
    const groupPub: nat
    const pubs: map<Id, nat>
    var commits: map<Id, CommitWire>
    var shares: map<Id, nat>
    var r: Option<nat>
    var c: nat
    var m: Msg
    var xs: map<Id, int>

    ghost function View(): Session
      reads this
    {
      Session(groupPub, pubs, commits, shares, r, c, m, xs)
    }

    /** Public key shares that do not decode are dropped. */
    constructor (q: nat, groupPub: nat, wires: map<Id, PointWire>)
      ensures View() == Session(groupPub, map id | id in wires && Decode(q, wires[id]).Some? :: wires[id].p,
                                map[], map[], None, 0, [], map[])
    {
      this.groupPub := groupPub;
      this.pubs := map id | id in wires && Decode(q, wires[id]).Some? :: wires[id].p;
      commits, shares, r, c, m, xs := map[], map[], None, 0, [], map[];
    }

    method SetXs(xs: map<Id, int>)
      modifies this
      ensures View() == old(View()).(xs := xs)
    {
      this.xs := xs;
    }

    method AddCommit(id: Id, de: CommitWire) returns (res: Result<()>)
      modifies this
      ensures res.Ok? <==> de.DE? && id in pubs && id !in old(commits)
      ensures View() == if res.Ok? then old(View()).(commits := old(commits)[id := de]) else old(View())
    {
      if de.BadLength? {
        return Err("frost: commitment must be 64 bytes");
      }
      if id !in pubs {
        return Err("frost: unknown signer");
      }
      if id in commits {
        return Err("frost: duplicate commitment");
      }
      commits := commits[id := de];
      res := Ok(());
    }

    /** Derives R and c once every signer has committed. */
    method Challenge(q: nat, h: Hashes, msg: Msg) returns (res: Result<(nat, nat)>)
      requires q > 0
      modifies this
      ensures res.Ok? <==> commits != map[] && |commits| == |pubs| && AllDecodable(q, commits)
      ensures res.Ok? ==> res.value.0 == NoncePoint(q, h, groupPub, msg, commits)
      ensures res.Ok? ==> res.value.1 == h.challenge(res.value.0, groupPub, msg) % q
      ensures View() == if res.Err? then old(View())
                        else old(View()).(r := Some(res.value.0), c := res.value.1, m := msg)
    {
      if |commits| == 0 || |commits| != |pubs| {
        return Err("frost: need commitments from all signers");
      }
      var nonce := AggregateNonce(q, h, groupPub, msg, commits);
      if nonce.Err? {
        return Err(nonce.reason);
      }
      r := Some(nonce.value);
      c := h.challenge(nonce.value, groupPub, msg) % q;
      m := msg;
      res := Ok((nonce.value, c));
    }

    method UseBlindedChallenge(q: nat, cPrime: nat, rp: nat, msg: Msg)
      requires q > 0
      modifies this
      ensures View() == old(View()).(r := Some(rp), c := cPrime % q, m := msg)
    {
      c := cPrime % q;
      r := Some(rp);
      m := msg;
    }

    /** Accepts partial z from id exactly when its equation holds. */
    method AddShare(q: nat, h: Hashes, id: Id, z: ScalarWire) returns (res: Result<()>)
      requires q > 0
      modifies this
      ensures res.Ok? ==> z.Scalar? && Verified(q, h, old(View()), id, z.v % q)
      ensures View() == if res.Ok? then old(View()).(shares := old(shares)[id := z.v % q]) else old(View())
      ensures res.Err? && z.Scalar? && Checkable(q, old(View()), id) ==>
                exists ids :: Refuses(q, h, old(View()), id, z.v % q, ids)
      ensures z.BadScalar? || id !in commits || id !in pubs || r.None? || |xs| != |pubs| ==> res.Err?
      ensures id in commits && !Decodable(q, commits[id]) ==> res.Err?
      ensures z.Scalar? && id in commits && id in pubs && r.Some? && |xs| == |pubs| && Decodable(q, commits[id]) ==>
                exists ids ::
                  Enumerates(ids, commits.Keys) &&
                  var lam, de := LagrangeValue(q, XOf(xs, id), XsOf(xs, ids)), commits[id];
                  var nonce := de.d.p + h.binding(groupPub, m, commits, id) * de.e.p;
                  res.Ok? <==> lam.Some? && Cong(q, z.v, nonce + (c * lam.value) * pubs[id])
    {
      if z.BadScalar? {
        return Err("frost: scalar must be 32 bytes");
      }
      var zi := z.v % q;
      if id !in commits {
        return Err("frost: no commitment");
      }
      var de := commits[id];
      if id !in pubs {
        return Err("frost: no pubshare");
      }
      if r.None? {
        return Err("frost: challenge not computed");
      }
      if |xs| != |pubs| {
        return Err("frost: participant indices missing");
      }
      if de.BadLength? || Decode(q, de.d).None? || Decode(q, de.e).None? {
        return Err("frost: bad commitment point");
      }
      var rho := Rho(q, h, groupPub, m, commits, id);
      var ids := OrderOf(commits.Keys);
      var lam := Lagrange(q, XOf(xs, id), XsOf(xs, ids));
      var good := CheckEquation(q, zi, de.d.p, de.e.p, rho, c, lam, pubs[id]);
      if lam.Some? {
        EquationOverHash(q, z.v, de.d.p, de.e.p, h.binding(groupPub, m, commits, id), c, lam.value, pubs[id]);
      }
      if !good {
        assert Checkable(q, View(), id) ==> Refuses(q, h, View(), id, zi, ids);
        return Err("frost: invalid share");
      }
      shares := shares[id := zi];
      res := Ok(());
    }

    /** (R, z) with z the sum of the accepted partials, in whatever order the map is walked. */
    method Aggregate(q: nat) returns (res: Result<(nat, nat)>)
      requires q > 0
      ensures res.Ok? <==> |shares| == |pubs| && r.Some?
      ensures res.Ok? ==> res.value == (r.value, Sum(shares.Keys, ShareAt(shares)) % q)
    {
      if |shares| != |pubs| {
        return Err("frost: need shares from all signers");
      }
      if r.None? {
        return Err("frost: challenge not computed");
      }
      var z := SumOf(shares);
      res := Ok((r.value, z % q));
    }
  }

  method SumOf(shares: map<Id, nat>) returns (z: int)
    ensures z == Sum(shares.Keys, ShareAt(shares))
  {
    var done: set<Id> := {};
    z := 0;
    while done != shares.Keys
      invariant done <= shares.Keys && z == Sum(done, ShareAt(shares))
      decreases shares.Keys - done
    {
      assert shares.Keys == done + (shares.Keys - done);
      var id :| id in shares.Keys - done;
      SumSplit(done + {id}, ShareAt(shares), id);
      assert done + {id} - {id} == done;
      z, done := z + shares[id], done + {id};
    }
  }

  function ShareAt(shares: map<Id, nat>): Id -> int {
    id => if id in shares then shares[id] else 0
  }

  // ---------------------------------------------------------------- correctness

  /** crypto/ed25519's check of (R, z) on m under A, as section 5.1.7 of RFC 8032 states it. */
  ghost predicate SignatureVerifies(q: nat, h: Hashes, pub: nat, m: Msg, r: nat, z: nat)
    requires q > 0
  {
    Cong(q, z, r + (h.challenge(r, pub, m) % q) * pub)
  }

  /** The signers' public shares are points of f at different indices, and there are enough of them. */
  ghost predicate SharesOn(q: int, f: seq<int>, s: Session) {
    && |f| <= |s.pubs| && DistinctPoints(q, s.pubs.Keys, s.xs)
    && forall id :: id in s.pubs ==> OnPolynomial(q, f, s, id)
  }

  /** And f(0) is the group key. */
  ghost predicate SharesOf(q: int, f: seq<int>, s: Session) {
    SharesOn(q, f, s) && Cong(q, s.groupPub, Eval(f, 0))
  }

  ghost predicate OnPolynomial(q: int, f: seq<int>, s: Session, id: Id)
    requires id in s.pubs
  {
    Cong(q, s.pubs[id], Eval(f, XOf(s.xs, id)))
  }

  /** Every signer has committed and has had its partial accepted. */
  ghost predicate Collected(q: nat, h: Hashes, f: seq<int>, s: Session)
    requires q > 0
  {
    && SharesOn(q, f, s) && s.pubs.Keys == s.commits.Keys == s.shares.Keys
    && forall id :: id in s.shares ==> Verified(q, h, s, id, s.shares[id])
  }

  /** And the key the session signs under is that of the polynomial. */
  ghost predicate Complete(q: nat, h: Hashes, f: seq<int>, s: Session)
    requires q > 0
  {
    Collected(q, h, f, s) && Cong(q, s.groupPub, Eval(f, 0))
  }

  /** An accepted partial in terms of the Lagrange coefficient. */
  lemma VerifiedMeans(q: Prime, h: Hashes, s: Session, id: Id, z: nat, a: int)
    requires q > 0 && Verified(q, h, s, id, z) && Cong(q, s.pubs[id], a)
    requires DistinctPoints(q, s.commits.Keys, s.xs)
    ensures Points(q, PointsOf(s.commits.Keys, s.xs))
    ensures Cong(q, z, NonceOf(q, h, s.groupPub, s.m, s.commits, id)
                       + s.c * (Coefficient(q, s.commits.Keys, s.xs, id) * a))
  {
    var de, rho := s.commits[id], Rho(q, h, s.groupPub, s.m, s.commits, id);
    var ids :| Enumerates(ids, s.commits.Keys)
      && var lam := LagrangeValue(q, XOf(s.xs, id), XsOf(s.xs, ids));
         lam.Some? && Equation(q, z, de.d.p, de.e.p, rho, s.c, lam.value, s.pubs[id]);
    var lam := LagrangeValue(q, XOf(s.xs, id), XsOf(s.xs, ids)).value;
    LagrangeOfSigner(q, s.commits.Keys, s.xs, ids, id);
    EquationMeans(q, z, de.d.p, de.e.p, rho, s.c, lam, s.pubs[id], a);
    ReplaceLambda(q, z, de.d.p + rho * de.e.p, s.c, lam, Coefficient(q, s.commits.Keys, s.xs, id), a);
  }

  lemma ReplaceLambda(q: int, z: int, nonce: int, c: int, lam: int, l: int, a: int)
    requires Cong(q, lam, l) && Cong(q, z, nonce + (c * lam) * a)
    ensures Cong(q, z, nonce + c * (l * a))
  {
    CongEqual(q, a, a);
    CongMul(q, lam, l, a, a);
    CongScale(q, c, lam * a, l * a);
    assert (c * lam) * a == c * (lam * a);
    CongEqual(q, nonce, nonce);
    CongAdd(q, nonce, nonce, c * (lam * a), c * (l * a));
    CongTrans(q, z, nonce + (c * lam) * a, nonce + c * (l * a));
  }

  /** id |-> lambda * f(x), what the key parts of the partials sum over. */
  ghost function KeyTerms(q: Prime, keys: set<Id>, xs: map<Id, int>, f: seq<int>): Id -> int
    requires Points(q, PointsOf(keys, xs))
  {
    id => if id in keys then Coefficient(q, keys, xs, id) * Eval(f, XOf(xs, id)) else 0
  }

  lemma KeyTermIs(q: Prime, keys: set<Id>, xs: map<Id, int>, f: seq<int>, id: Id)
    requires Points(q, PointsOf(keys, xs)) && id in keys
    ensures KeyTerms(q, keys, xs, f)(id) == Weighted(q, PointsOf(keys, xs), f)(XOf(xs, id))
  {
    assert XOf(xs, id) in PointsOf(keys, xs);
  }

  function IndexOf(xs: map<Id, int>): Id -> int {
    id => XOf(xs, id)
  }

  lemma KeyTermsReindex(q: Prime, keys: set<Id>, xs: map<Id, int>, f: seq<int>)
    requires DistinctPoints(q, keys, xs) && Points(q, PointsOf(keys, xs))
    ensures Sum(keys, KeyTerms(q, keys, xs, f)) == Interpolate(q, PointsOf(keys, xs), f)
  {
    PointsAreDistinct(q, keys, xs);
    var index, terms, weighted := IndexOf(xs), KeyTerms(q, keys, xs, f), Weighted(q, PointsOf(keys, xs), f);
    forall id | id in keys ensures terms(id) == weighted(index(id)) {
      KeyTermIs(q, keys, xs, f, id);
    }
    assert PointsOf(keys, xs) == set id | id in keys :: index(id);
    SumReindex(keys, PointsOf(keys, xs), index, terms, weighted);
  }

  /** Over enough signers the key terms sum to f(0). */
  lemma KeyTermsSum(q: Prime, keys: set<Id>, xs: map<Id, int>, f: seq<int>)
    requires DistinctPoints(q, keys, xs) && |f| <= |keys|
    ensures Points(q, PointsOf(keys, xs))
    ensures Cong(q, Sum(keys, KeyTerms(q, keys, xs, f)), Eval(f, 0))
  {
    PointsAreDistinct(q, keys, xs);
    KeyTermsReindex(q, keys, xs, f);
    SameSize(keys, xs);
    InterpolationAtZero(q, PointsOf(keys, xs), f);
  }

  lemma {:induction false} SameSize(keys: set<Id>, xs: map<Id, int>)
    requires forall a, b :: a in keys && b in keys && XOf(xs, a) == XOf(xs, b) ==> a == b
    ensures |PointsOf(keys, xs)| == |keys|
    decreases |keys|
  {
    if keys != {} {
      var id :| id in keys;
      SameSize(keys - {id}, xs);
      assert PointsOf(keys, xs) == PointsOf(keys - {id}, xs) + {XOf(xs, id)};
    }
  }

  /** If every partial of at least |f| signers was accepted under R and c, and their public shares lie on
      f, then the sum of the partials is the nonces plus c times f(0), whatever the group key is. */
  lemma AggregateValue(q: Prime, h: Hashes, f: seq<int>, s: Session)
    requires q > 0 && Collected(q, h, f, s)
    ensures Cong(q, Sum(s.shares.Keys, ShareAt(s.shares)),
                 Sum(s.commits.Keys, Nonces(q, h, s.groupPub, s.m, s.commits)) + s.c * Eval(f, 0))
  {
    var keys := s.commits.Keys;
    var nonces := Nonces(q, h, s.groupPub, s.m, s.commits);
    assert |s.pubs.Keys| == |s.pubs|;
    KeyTermsSum(q, keys, s.xs, f);
    var terms := KeyTerms(q, keys, s.xs, f);
    PartialsPointwise(q, h, f, s);
    SumLinear(q, keys, ShareAt(s.shares), nonces, terms, 1, s.c);
    CloseSum(q, Sum(keys, ShareAt(s.shares)), Sum(keys, nonces), s.c, Sum(keys, terms), Eval(f, 0));
  }

  /** FROST is correct: when f(0) is moreover the group key, the sum of the partials satisfies
      z*B = R + c*A. */
  lemma AggregateCorrect(q: Prime, h: Hashes, f: seq<int>, s: Session)
    requires q > 0 && Complete(q, h, f, s)
    ensures Cong(q, Sum(s.shares.Keys, ShareAt(s.shares)),
                 Sum(s.commits.Keys, Nonces(q, h, s.groupPub, s.m, s.commits)) + s.c * s.groupPub)
  {
    var nonce := Sum(s.commits.Keys, Nonces(q, h, s.groupPub, s.m, s.commits));
    AggregateValue(q, h, f, s);
    CongSym(q, s.groupPub, Eval(f, 0));
    CongScale(q, s.c, Eval(f, 0), s.groupPub);
    CongEqual(q, nonce, nonce);
    CongAdd(q, nonce, nonce, s.c * Eval(f, 0), s.c * s.groupPub);
    CongTrans(q, Sum(s.shares.Keys, ShareAt(s.shares)), nonce + s.c * Eval(f, 0), nonce + s.c * s.groupPub);
  }

  lemma PartialTerm(q: Prime, h: Hashes, f: seq<int>, s: Session, id: Id)
    requires q > 0 && Collected(q, h, f, s) && id in s.shares && Points(q, PointsOf(s.commits.Keys, s.xs))
    ensures LinearAt(q, id, ShareAt(s.shares), Nonces(q, h, s.groupPub, s.m, s.commits),
                     KeyTerms(q, s.commits.Keys, s.xs, f), 1, s.c)
  {
    assert OnPolynomial(q, f, s, id);
    VerifiedMeans(q, h, s, id, s.shares[id], Eval(f, XOf(s.xs, id)));
  }

  lemma PartialsPointwise(q: Prime, h: Hashes, f: seq<int>, s: Session)
    requires q > 0 && Collected(q, h, f, s)
    requires Points(q, PointsOf(s.commits.Keys, s.xs))
    ensures PointwiseLinear(q, s.commits.Keys, ShareAt(s.shares), Nonces(q, h, s.groupPub, s.m, s.commits),
                            KeyTerms(q, s.commits.Keys, s.xs, f), 1, s.c)
  {
    var c, nonces := s.c, Nonces(q, h, s.groupPub, s.m, s.commits);
    var terms, shares := KeyTerms(q, s.commits.Keys, s.xs, f), ShareAt(s.shares);
    forall id | id in s.commits.Keys ensures LinearAt(q, id, shares, nonces, terms, 1, c) {
      PartialTerm(q, h, f, s, id);
    }
  }

  lemma CloseSum(q: int, z: int, n: int, c: int, t: int, v: int)
    requires Cong(q, z, 1 * n + c * t) && Cong(q, t, v)
    ensures Cong(q, z, n + c * v)
  {
    CongScale(q, c, t, v);
    CongEqual(q, n, n);
    CongAdd(q, n, n, c * t, c * v);
    CongTrans(q, z, n + c * t, n + c * v);
  }

  /** The sum of the nonce points, as a point. */
  ghost function NoncePoint(q: nat, h: Hashes, pub: nat, m: Msg, commits: map<Id, CommitWire>): (r: nat)
    requires q > 0
  {
    Sum(commits.Keys, Nonces(q, h, pub, m, commits)) % q
  }

  /** z*B = (sum of the nonce points) + c*A, the equation the sum of accepted partials satisfies. */
  ghost predicate Signs(q: nat, h: Hashes, s: Session, z: nat)
    requires q > 0
  {
    Cong(q, z, NoncePoint(q, h, s.groupPub, s.m, s.commits) + s.c * s.groupPub)
  }

  /** What Aggregate returns satisfies the equation. */
  lemma AggregateSigns(q: Prime, h: Hashes, f: seq<int>, s: Session, z: nat)
    requires q > 0 && Complete(q, h, f, s) && z == Sum(s.shares.Keys, ShareAt(s.shares)) % q
    ensures Signs(q, h, s, z)
  {
    AggregateCorrect(q, h, f, s);
    ReduceBoth(q, Sum(s.shares.Keys, ShareAt(s.shares)),
               Sum(s.commits.Keys, Nonces(q, h, s.groupPub, s.m, s.commits)), s.c * s.groupPub);
  }

  lemma ReduceBoth(q: nat, total: int, nonce: int, key: int)
    requires q > 0 && Cong(q, total, nonce + key)
    ensures Cong(q, total % q, nonce % q + key)
  {
    CongMod(q, total);
    CongMod(q, nonce);
    CongEqual(q, key, key);
    CongAdd(q, nonce, nonce % q, key, key);
    CongTrans(q, total % q, total, nonce + key);
    CongTrans(q, total % q, nonce + key, nonce % q + key);
  }

  /** Accepted partials sign under the group key exactly when it agrees with f(0), up to the challenge. */
  lemma SignsExactly(q: Prime, h: Hashes, f: seq<int>, s: Session, z: nat)
    requires q > 0 && Collected(q, h, f, s) && z == Sum(s.shares.Keys, ShareAt(s.shares)) % q
    ensures Signs(q, h, s, z) <==> Cong(q, s.c * Eval(f, 0), s.c * s.groupPub)
    ensures !Cong(q, s.c, 0) ==> (Signs(q, h, s, z) <==> Cong(q, Eval(f, 0), s.groupPub))
  {
    AggregateValue(q, h, f, s);
    var total := Sum(s.shares.Keys, ShareAt(s.shares));
    var nonce := Sum(s.commits.Keys, Nonces(q, h, s.groupPub, s.m, s.commits));
    ReduceBoth(q, total, nonce, s.c * Eval(f, 0));
    SameNonce(q, z, nonce % q, s.c * Eval(f, 0), s.c * s.groupPub);
    if Cong(q, Eval(f, 0), s.groupPub) {
      CongScale(q, s.c, Eval(f, 0), s.groupPub);
    } else if !Cong(q, s.c, 0) && Cong(q, s.c * Eval(f, 0), s.c * s.groupPub) {
      Cancel(q, s.c, Eval(f, 0), s.groupPub);
    }
  }

  lemma SameNonce(q: int, z: int, n: int, a: int, b: int)
    requires Cong(q, z, n + a)
    ensures Cong(q, z, n + b) <==> Cong(q, a, b)
  {
    if Cong(q, a, b) {
      CongEqual(q, n, n);
      CongAdd(q, n, n, a, b);
      CongTrans(q, z, n + a, n + b);
    }
    if Cong(q, z, n + b) {
      CongSym(q, z, n + a);
      CongTrans(q, n + a, z, n + b);
      CongEqual(q, -n, -n);
      CongAdd(q, n + a, n + b, -n, -n);
    }
  }

  /** R is the sum of the nonce points and c the challenge for it. */
  ghost predicate ChallengeSet(q: nat, h: Hashes, s: Session)
    requires q > 0
  {
    && s.r == Some(NoncePoint(q, h, s.groupPub, s.m, s.commits))
    && s.c == h.challenge(s.r.value, s.groupPub, s.m) % q
  }

  /** Under the challenge for that nonce point, it is an ordinary Ed25519 signature. */
  lemma SignsVerifies(q: nat, h: Hashes, s: Session, z: nat)
    requires q > 0 && Signs(q, h, s, z) && ChallengeSet(q, h, s)
    ensures SignatureVerifies(q, h, s.groupPub, s.m, s.r.value, z)
  {
  }

  /** An honest partial passes the check, whatever orders signer and aggregator listed the set in. */
  lemma HonestPartial(q: Prime, h: Hashes, s: Session, id: Id, d: nat, e: nat, share: nat, lam: nat, ids: seq<Id>)
    requires q > 0 && id in s.commits && id in s.pubs && DistinctPoints(q, s.commits.Keys, s.xs)
    requires s.commits[id] == DE(Enc(Scale(q, d, 1)), Enc(Scale(q, e, 1))) && s.pubs[id] == Scale(q, share, 1)
    requires Points(q, PointsOf(s.commits.Keys, s.xs)) && Cong(q, lam, Coefficient(q, s.commits.Keys, s.xs, id))
    requires Enumerates(ids, s.commits.Keys)
    ensures var z := PartialValue(q, d, e, Rho(q, h, s.groupPub, s.m, s.commits, id), s.c, lam, share);
            var checked := LagrangeValue(q, XOf(s.xs, id), XsOf(s.xs, ids));
            checked.Some? && Equation(q, z, s.commits[id].d.p, s.commits[id].e.p,
              Rho(q, h, s.groupPub, s.m, s.commits, id), s.c, checked.value, s.pubs[id])
  {
    var rho := Rho(q, h, s.groupPub, s.m, s.commits, id);
    LagrangeOfSigner(q, s.commits.Keys, s.xs, ids, id);
    var mu := LagrangeValue(q, XOf(s.xs, id), XsOf(s.xs, ids)).value;
    CongSym(q, mu, Coefficient(q, s.commits.Keys, s.xs, id));
    CongTrans(q, lam, Coefficient(q, s.commits.Keys, s.xs, id), mu);
    OwnPoint(q, share);
    EquationMeans(q, PartialValue(q, d, e, rho, s.c, lam, share), Scale(q, d, 1), Scale(q, e, 1), rho, s.c, mu,
                  s.pubs[id], share);
    PartialStep(q, d, e, rho, s.c, lam, mu, share);
  }

  lemma OwnPoint(q: nat, k: nat)
    requires q > 0
    ensures Cong(q, Scale(q, k, 1), k) && Cong(q, k, Scale(q, k, 1))
  {
    assert k * 1 == k;
    CongMod(q, k);
  }

  lemma PartialStep(q: nat, d: nat, e: nat, rho: nat, c: nat, lam: nat, mu: nat, share: nat)
    requires q > 0 && Cong(q, lam, mu)
    ensures Cong(q, PartialValue(q, d, e, rho, c, lam, share),
                 Scale(q, d, 1) + rho * Scale(q, e, 1) + (c * mu) * share)
  {
    OwnPoint(q, d);
    OwnPoint(q, e);
    CongScale(q, rho, e, Scale(q, e, 1));
    CongAdd(q, d, Scale(q, d, 1), rho * e, rho * Scale(q, e, 1));
    CongEqual(q, share, share);
    CongMul(q, lam, mu, share, share);
    CongScale(q, c, lam * share, mu * share);
    assert c * (mu * share) == (c * mu) * share;
    CongAdd(q, d + rho * e, Scale(q, d, 1) + rho * Scale(q, e, 1), c * (lam * share), (c * mu) * share);
    CongMod(q, rho * e + d + c * (lam * share));
    CongTrans(q, PartialValue(q, d, e, rho, c, lam, share), rho * e + d + c * (lam * share),
              Scale(q, d, 1) + rho * Scale(q, e, 1) + (c * mu) * share);
  }
}
