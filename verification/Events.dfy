// The signed, chained events of timeline.go as values. Hashes and signatures are
// idealised: a digest is the event it was taken of, a signature is the key and the
// message, and Raw stands for any other bytes. Payloads are datatypes with a
// malformed case.

module Events {
  import opened Wrappers

  /** Public key bytes; a private key is a number and Pub gives its public half. */
  datatype PubKey = Pub(key: nat) | WrongLength(id: nat)

  datatype EventType = KeyGen | Issue | Revoke | PolicyChange | Recovery | Commit | ShardActivity | Detected | KeyRotate
                     | OtherType(name: string)

  datatype Digest = Sha(e: Event) | Dual(e: Event) | RawDigest(id: nat)

  datatype Event = Event(body: Body, sig: Signature)

  datatype Body = Body(typ: EventType, ts: int, payload: Payload, parent: Option<Digest>)

  datatype Signature = Signed(key: PubKey, msg: Message) | RawSignature(id: nat)

  datatype Message = EventMsg(body: Body) | HandoffMsg(d: Descriptor)

  datatype Descriptor = Descriptor(epoch: int, checkpoint: Option<Digest>, prev: int, newPub: PubKey, payload: nat)

  /** The council's threshold-signed handoff to a new root key. */
  datatype FrostCommit = FrostCommit(d: Descriptor, sig: Signature, members: seq<string>)
  {
    /** At least min members, a key of the right length, and the group's signature. */
    predicate Valid(groupPub: PubKey, min: int) {
      |members| >= min && d.newPub.Pub? && sig == Signed(groupPub, HandoffMsg(d))
    }
  }

  /** The signature does not cover the member names: a valid handoff stays valid exactly under every list of
      at least min names, whoever they are. */
  lemma MembersUnsigned(fc: FrostCommit, groupPub: PubKey, names: seq<string>, min: int)
    requires fc.Valid(groupPub, 1)
    ensures fc.(members := names).Valid(groupPub, min) <==> |names| >= min
  {
  }

  /** One name listed min times, for instance. */
  lemma OneNameIsAQuorum(fc: FrostCommit, groupPub: PubKey, name: string, min: nat)
    requires fc.Valid(groupPub, 1)
    ensures exists names: seq<string> :: |names| == min && (forall n <- names :: n == name)
                                         && fc.(members := names).Valid(groupPub, min)
  {
    var names: seq<string> := seq(min, _ => name);
    assert fc.(members := names).Valid(groupPub, min);
  }

  datatype Payload =
    | IssuePayload(certId: string, identity: string, via: string)
    | CertPayload(certId: string)
    | RotatePayload(newKey: PubKey)
    | HandoffPayload(fc: FrostCommit)
    | CommitPayload(epoch: int, checkpoint: Option<Digest>, newPub: PubKey)
    | EvidencePayload(badIndex: int)
    | OtherPayload(id: nat)
    | Malformed(id: nat)

  // Each reader unmarshals a payload into its own struct: missing fields read as
  // zero values, malformed bytes fail.

  datatype IssueFields = IssueFields(certId: string, identity: string, via: string)

  function AsIssue(p: Payload): Option<IssueFields> {
    match p
    case IssuePayload(c, i, v) => Some(IssueFields(c, i, v))
    case CertPayload(c) => Some(IssueFields(c, "", ""))
    case Malformed(_) => None
    case _ => Some(IssueFields("", "", ""))
  }

  function AsRevoke(p: Payload): Option<string> {
    match AsIssue(p)
    case Some(f) => Some(f.certId)
    case None => None
  }

  /** The key of a rotation, when the payload holds one of the right length. */
  function RotatedKey(p: Payload): Option<PubKey> {
    if p.RotatePayload? && p.newKey.Pub? then Some(p.newKey) else None
  }

  /** The key of a handoff as pubForPrefix reads it, without checking the handoff. */
  function HandedKey(p: Payload): Option<PubKey> {
    match p
    case HandoffPayload(fc) => if fc.d.newPub.Pub? then Some(fc.d.newPub) else None
    case CommitPayload(_, _, k) => if k.Pub? then Some(k) else None
    case _ => None
  }

  /** The epoch field of a COMMIT payload; 0 when there is none. */
  function EpochOf(p: Payload): int {
    match p
    case CommitPayload(e, _, _) => e
    case HandoffPayload(fc) => fc.d.epoch
    case _ => 0
  }

  /** What is written reads back: each payload in its own reader, field by field. */
  lemma PayloadsReadBack(certId: string, identity: string, via: string, k: nat, fc: FrostCommit, epoch: int,
                         key: PubKey)
    ensures AsIssue(IssuePayload(certId, identity, via)) == Some(IssueFields(certId, identity, via))
    ensures AsRevoke(CertPayload(certId)) == Some(certId)
    ensures RotatedKey(RotatePayload(Pub(k))) == Some(Pub(k))
    ensures HandedKey(HandoffPayload(fc)) == if fc.d.newPub.Pub? then Some(fc.d.newPub) else None
    ensures EpochOf(CommitPayload(epoch, fc.d.checkpoint, key)) == epoch
  {
  }

  /** A reader takes a foreign payload for one with empty fields, and fails on malformed bytes alone. */
  lemma ForeignPayloads(p: Payload)
    ensures AsIssue(p).None? <==> p.Malformed?
    ensures AsRevoke(p).None? <==> p.Malformed?
    ensures AsIssue(p).Some? && !p.IssuePayload? && !p.CertPayload? ==> AsIssue(p).value == IssueFields("", "", "")
    ensures AsIssue(p).Some? ==> AsRevoke(p) == Some(AsIssue(p).value.certId)
    ensures !p.CommitPayload? && !p.HandoffPayload? ==> EpochOf(p) == 0
  {
  }

  datatype Algo = Sha256 | DualHash

  /** The chain-link digest; canonical bytes and signature together are the event. */
  function DigestOf(algo: Algo, e: Event): Digest {
    if algo == Sha256 then Sha(e) else Dual(e)
  }

  /** Event.Hash: always SHA-256. */
  function HashOf(e: Event): Digest {
    Sha(e)
  }

  function SignEvent(key: nat, body: Body): Event {
    Event(body, Signed(Pub(key), EventMsg(body)))
  }

  predicate SignedBy(pub: PubKey, e: Event) {
    e.sig == Signed(pub, EventMsg(e.body))
  }
}
