// What a council's FROST ceremony works on: the handoff descriptor's bytes, the members'
// canonical indices, and how 64 signature bytes read as an idealised signature.

module Ceremonies {
  import opened Events
  import opened PrimeField
  import opened Frost
  import opened KeyShares

  /** The group order, the hashes, the bytes of a descriptor, and R || z as a signature. */
  datatype Env = Env(q: Prime, h: Hashes, bytes: Descriptor -> Msg, seal: (nat, nat) -> Signature)

  /** R || z reads as the group's signature on a descriptor exactly when Ed25519 accepts it. */
  ghost predicate Reads(env: Env, groupPub: nat, d: Descriptor)
    requires env.q > 0
  {
    forall r, z :: ReadsAs(env, groupPub, d, r, z)
  }

  ghost predicate ReadsAs(env: Env, groupPub: nat, d: Descriptor, r: nat, z: nat)
    requires env.q > 0
  {
    env.seal(r, z) == Signed(Pub(groupPub), HandoffMsg(d)) <==>
    SignatureVerifies(env.q, env.h, groupPub, env.bytes(d), r, z)
  }

  /** xsOf: every committed participant's canonical index. */
  function IndicesOf(commits: map<Id, CommitWire>): map<Id, int> {
    map id | id in commits :: MemberX(id)
  }

  function TranscriptOf(env: Env, d: Descriptor, commits: map<Id, CommitWire>, c: nat): Transcript {
    Transcript(env.bytes(d), commits, IndicesOf(commits), c)
  }

  /** The handoff's bytes are R || z for some (R, z) that Ed25519 accepts under the group key. */
  ghost predicate SealVerifies(env: Env, groupPub: nat, fc: FrostCommit)
    requires env.q > 0
  {
    exists r, z :: SealVerifiesAs(env, groupPub, fc, r, z)
  }

  ghost predicate SealVerifiesAs(env: Env, groupPub: nat, fc: FrostCommit, r: nat, z: nat)
    requires env.q > 0
  {
    fc.sig == env.seal(r, z) && SignatureVerifies(env.q, env.h, groupPub, env.bytes(fc.d), r, z)
  }

  /** A group's signature on a handoff that came as R || z is one Ed25519 accepts. */
  lemma ValidSealVerifies(env: Env, groupPub: nat, fc: FrostCommit, r: nat, z: nat)
    requires env.q > 0 && Reads(env, groupPub, fc.d) && fc.Valid(Pub(groupPub), 1) && fc.sig == env.seal(r, z)
    ensures SealVerifies(env, groupPub, fc)
  {
    assert ReadsAs(env, groupPub, fc.d, r, z);
    assert SealVerifiesAs(env, groupPub, fc, r, z);
  }
}
