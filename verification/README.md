# Trust orchestrator: verified core

A Dafny model of the three cores of the trust orchestrator and of two small
arithmetic ones, with the properties the program relies on proved for all inputs
and over all runs.

- **The transparency log** (`MerkleTree`, `CtLog`, `CtVerify`, `Gossip`). The
  recursive tree hash and proof generators, the two loop verifiers that never see
  the tree, and the gossip observer. The verifiers are proved *exact*: they accept
  a root if and only if the proof is the generated one for the true leaf or prefix.
- **The threshold algebra** (`Orders`, `PrimeField`, `Interpolation`, `Accumulate`,
  `BigEndian`, `Shamir`, `Group`, `Frost`, `FrostRound`, `AggregatorRuns`,
  `KeyShares`, `Dkg`, `Reshare`). One interpolation-at-zero theorem over an arbitrary prime field feeds
  secret sharing, threshold and blind signing, key generation and resharing.
- **The trust chain and its recovery** (`Events`, `Chains`, `Timelines`, `Graphs`,
  `Rollbacks`, `Recoveries`, `Councils`, `Ceremonies`, `CouncilSigning`,
  `CouncilNets`, `CouncilRuns`, `RemoteRecovery`, `RemoteMembers`, `Adoption`,
  `Incidents`).
  The signed hash chain with its key handoffs, the blast radius, the council
  protocol with single-use nonces, and the gate that adopts a recovery fork.
- **Detection and throttling** (`Detection`, `RateLimits`). The CUSUM detector with
  its count watchdogs, and the token bucket.

Conventions: a digest is the value it was taken of (hashes are injective), a
signature verifies exactly when it is the given key's signature on the given
message, and a point of the signing group is its multiple of the base point modulo
the prime group order, which is a parameter. Hash-to-scalar functions are arbitrary
functions, and how 64 bytes R and z read as a signature is one more
such function. Randomness, clock readings and malformed input are parameters. Go map
iteration is an arbitrary choice of order. `Wrappers` and `Decimals` hold the
option and result types and decimal text.

## Where the code and its documentation part

The model follows the code; each of these is proved.

- A fork starts at the key current *after* its branch event but takes the private
  key that signed that event (timeline.go:357, timeline.go:367). So a fork at or
  after a rotation to another key does not verify, although a fork is documented to
  continue under the key current at its branch point.
  `Timelines.ForkVerifiesExactly`, `Timelines.ForkLiveExactly` and
  `Timelines.ForkThenAppendExactly` give the exact conditions,
  `Timelines.ForkAtRotationFails` an instance.
- The recovery checkpoint is always the SHA-256 event hash (council.go:319) while
  verification compares the digest of the chain's own algorithm (timeline.go:267).
  A recovered dual-hash timeline with a non-empty prefix therefore never verifies:
  `Recoveries.DualPrefixFails`.
- Rolling back looks the checkpoint up by hash and takes the last match
  (timeline.go:349). When the bad region repeats the checkpoint event the fork is
  longer than the verified prefix and does not verify. That, a rotated prefix
  (`Recoveries.RotatedPrefixFails`), a dual-hash chain and a foreign trust anchor
  are exactly the cases in which the timeline that recovery returns fails its own
  verification: `Recoveries.RecoveredVerifiesExactly`.
- Only the council is to recover (line 44 of the repository's README), the endpoint is
  documented to verify the handoff against the council's group key and the fork against
  this organisation's verified prefix (api.go:777-782), and to refuse the replay of a stale
  recovery (api.go:834). Neither holds. The gate verifies the submitted commit against the
  store's key and the fork against the trust anchor in the fork's own upload
  (timeline.go:475), compares neither the two keys nor the commit with the fork, compares
  only the events before the *first* RECOVERY, and takes its epochs from COMMIT payloads,
  which any current key signs. So there are two ways in which an adoption is no new act of
  the council. The upload names another council: `Adoption.AuthorisedExactly`, instance
  `Adoption.OtherCouncilAdopted`. Or it brings no handoff for a later epoch: whoever holds
  the key that the chain's first recovery handed over cuts the chain there and commits the
  next epoch, `Adoption.OldHandoffAdopted`. `Adoption.NewlyAuthorisedExactly` has both as
  one exact condition on the upload, `Adoption.OnlyCouncilRecovers` and
  `Adoption.EachRecoveryIsAnAct` lift it over runs.
- What a later recovery keeps is therefore what precedes the chain's first RECOVERY
  (`Adoption.PrefixSurvives`, `Adoption.RevokedForGood`), and beyond that what precedes an
  index whose head some handoff of the upload names as its checkpoint
  (`Adoption.CheckpointNamesPrefix`, `Adoption.RevocationsBeforeCheckpoint`). Nothing else
  need survive: the replay above forgets every certificate issued after the first recovery,
  with its revocation (`Adoption.OldHandoffForgets`).
- A handoff is documented to be accepted if and only if enough distinct members signed it
  (timeline.go:199-201). The group signature does not cover the list of members, and only
  the length of that list is compared: `Events.MembersUnsigned`, and
  `Events.OneNameIsAQuorum` with one name throughout.
- A member votes for a recovery from genesis, spending its nonces, but refuses every
  commit request without a checkpoint (councilnet.go:313). A networked recovery from
  genesis can gather no partial: `CouncilNets.VoteReleasable` and
  `CouncilRuns.GenesisVoteSignsNothing`.
- A member re-verifies the post-conditions before it signs (councilnet.go:296-299), on
  the fork and the bad index of the commit request. Nothing there ties them to the
  prefix it voted for; `CouncilNets.CheckedAtVote` says exactly when they are its. And
  the initiator sends the fork as it is before the handoff and the re-issuances
  (councilnet.go:429-446), which passes whenever it verifies, so that no member checks the
  timeline that is published: `CouncilNets.WholeForkAccepted`,
  `RemoteMembers.InitiatorIsSigned`. Members sign recoveries whose published timeline does
  not verify; `RemoteMembers.SignedVerifiesExactly` says which.
- The epoch a member stores is the one in the request, next to which nothing checks the
  descriptor's (councilnet.go:308, councilnet.go:359). The two agree in the requests of
  `RemoteRecover`. Otherwise one partial can put the stored epoch above that of every later
  vote: `CouncilNets.EpochOutruns`, with the exact condition in `CouncilNets.NextVote`.
- The group key is documented to be unchanged by resharing (reshare.go:80-83). Combining never
  compares entry 0 of the summed commitments with it, so one old holder that shares another
  number leaves shares that verify and load but sign under another key:
  `Reshare.AnySendersSignExactly`.
- A share dealt with threshold 1 is not reduced (frost.go:356) and its file then
  loads only for a secret below the group order: `KeyShares.DealtLoads`.

## Model

| member | source | states |
|---|---|---|
| MerkleTree.SplitPointLoop | ctlog.go:78-84 | the doubling loop returns the largest power of two strictly below n |
| MerkleTree.MthUp | ctlog.go:66-75 | the recursive tree hash is unchanged when neighbours are paired into the next layer, the bridge from recursion to the verifiers' loops |
| MerkleTree.PathUp | ctlog.go:102-114 | a recursive path is the node's own sibling and then its parent's path one layer up |
| MerkleTree.ConsPathEven | ctlog.go:136-152 | a consistency path for an even old size is the path for half the sizes one layer up |
| MerkleTree.ConsPathOdd | ctlog.go:136-152 | for an odd old size it is the last old leaf followed by that leaf's own path |
| MerkleTree.MthInjective | ctlog.go:66-75 | equal tree hashes over ranges of one length mean equal leaves |
| MerkleTree.PathLength | ctlog.go:88-114 | a path's length depends on index and size alone and is at most ceil(log2 size) |
| CtLog.TreeHash | ctlog.go:66-75 | a tree hash exists exactly for a non-empty range |
| CtLog.MerkleLog.Append | ctlog.go:51-54 | the leaf hash of the entry is added at the returned index and nothing else changes |
| CtLog.MerkleLog.PathInto | ctlog.go:102-114 | the appending recursion grows the slice by the sibling path |
| CtLog.MerkleLog.ConsPathInto | ctlog.go:136-152 | the appending recursion grows the slice by SUBPROOF of section 2.1.4.1 of RFC 9162 |
| CtLog.MerkleLog.InclusionProof | ctlog.go:88-98 | succeeds exactly for 0 <= idx < size <= log size, with root and path of the tree of that size |
| CtLog.MerkleLog.ConsistencyProof | ctlog.go:121-128 | succeeds exactly for 1 <= from < to <= log size, with both roots and the proof for the longer tree |
| CtVerify.VerifyInclusion | ctlog.go:160-188 | the bit-shifting loop computes the layer-by-layer walk, and nothing outside the index range |
| CtVerify.InclusionExact | ctlog.go:160-188 | the walk yields the tree's root if and only if the hash is leaf idx and the proof is precisely its generated path |
| CtVerify.PowerOfTwoTest | ctlog.go:209-211 | size & (size-1) == 0 holds exactly for powers of two |
| CtVerify.VerifyConsistency | ctlog.go:195-238 | the loop accepts exactly the inputs the two-root climb accepts, for every pair of sizes, roots and proofs |
| CtVerify.DualClimbExact | ctlog.go:212-237 | from the old tree's last node the climb ends in both roots if and only if it starts at that node and the proof is its path |
| CtVerify.ConsistencyExact | ctlog.go:195-238 | for lists of lengths 1 <= m < n the climb reaches both roots if and only if the shorter is a prefix of the longer and the proof is the generated one |
| CtVerify.AcceptsExact | ctlog.go:195-238 | for every two lists, empty, equal and shrunk ones included, the verifier accepts their roots if and only if the old list is a prefix of the new and the proof is the one ConsistencyProof builds |
| Gossip.SignSTH | ctlog.go:275-284 | a signed head verifies under its own key alone |
| Gossip.AlteredHeadFails | ctlog.go:275-284 | a signature is good for one head alone |
| Gossip.GossipNode.Observe | ctlog.go:323-353 | the new trusted head, verdict and alarm are those of the step function, for every report |
| Gossip.VerdictExactly | ctlog.go:323-353 | with the head of list a trusted, a signed head of list b that is not shorter is accepted if and only if b extends a and, if longer, comes with the log's own proof from there, and then a longer one is trusted; everything else raises the alarm of its case and leaves the trusted head |
| Gossip.FirstVerdict | ctlog.go:323-334 | a head the log key did not sign changes nothing, and the first signed head is trusted |
| Gossip.TrustOnlyExtends | ctlog.go:323-353 | over every run, once a positive size is trusted it never falls and every later trusted list extends every earlier one |
| Gossip.HonestRun | ctlog.go:323-353 | a run fed heads of one growing log, with the log's own proofs, never alarms at any step |
| Gossip.CtTenant.HandleGossip | api.go:591-595 | the handler stores an accepted larger head and answers with the node's verdict |
| Gossip.HandlerIsLongLivedNode | api.go:591-595 | rebuilding the node from (size, root) on each request gives the same trusted head and verdicts as one long-lived node |
| PrimeField.Inverse | shamir.go:90 | every non-zero residue has an inverse modulo a prime |
| Interpolation.InterpolationAtZero | shamir.go:64-107 | over any set of at least as many distinct points as coefficients, the weighted values of a polynomial sum to its value at zero |
| Interpolation.CoefficientsSumToOne | frost.go:582-596 | the Lagrange coefficients at zero over any non-empty set of points sum to one |
| BigEndian.BytesRoundTrip | shamir.go:100-105 | stripping leading zeros and padding to the recorded length gives the bytes back |
| Accumulate.EvalPoly | shamir.go:51-61 | the accumulator loop returns the reduced polynomial value, or the bare secret without coefficients |
| Shamir.ShamirSplit | shamir.go:28-49 | fails exactly outside 1 <= k <= n or for a secret not below the prime, else shard x holds the polynomial at x |
| Shamir.ShamirJoin | shamir.go:64-107 | fails exactly for no shards, a nil shard, or two shards at one point of the field, else returns the bytes of the interpolated number |
| Shamir.JoinableExactly | shamir.go:64-107 | the shards that join: some, none nil, and no two at indices that agree modulo the prime |
| Shamir.RoundTrip | shamir.go:28-107 | any k or more distinct shards in any order rejoin to the exact original bytes |
| Group.ScalarMult | frost.go:97-108 | the 256-bit double-and-add loop computes the multiple of the point |
| Group.ShareVerifies | frost.go:370-378 | accepts exactly the shares that are the committed polynomial's value at x |
| Group.HonestShareVerifies | frost.go:356-378 | an honest dealer's share always verifies |
| Group.CommitCoefficients | frost.go:338-342 | the commitment loop that dealing, key generation and resharing share returns each coefficient times B |
| Group.Lagrange | frost.go:582-596 | the two product loops and the inversion give the coefficient, and fail where the source divides by zero |
| Group.LagrangeIsLambda | frost.go:582-596 | over distinct points that value exists and is the interpolation coefficient at zero |
| Frost.FrostSigner.Commit | frost.go:535-548 | commits once per signer; a second call fails and keeps the nonces |
| Frost.FrostSigner.SignShare | frost.go:610-625 | needs a commitment and a non-empty transcript, then returns d + binding*e + c*lambda*share modulo the order, with the hash of this signer over the whole transcript as binding, for some order of the participants |
| Frost.AggregateNonce | frost.go:674-693 | the nonce point is the sum of D + binding*E over all commitments in any map order, with each signer's own hash as binding, and fails exactly when there are none or one does not decode |
| Frost.FrostAggregator.AddCommit | frost.go:658-670 | takes exactly a well-formed first commitment of a known signer |
| Frost.FrostAggregator.Challenge | frost.go:724-739 | needs every signer's commitment, then sets the nonce sum and its challenge |
| Frost.FrostAggregator.UseBlindedChallenge | frost.go:716-720 | takes over nonce, challenge and message for a blind session |
| Frost.FrostAggregator.AddShare | frost.go:743-775 | refuses what it cannot check, and accepts anything else if and only if z = D + binding*E + c*lambda*A for some order of the participants, storing nothing else |
| Frost.FrostAggregator.Aggregate | frost.go:779-789 | needs every signer's partial and returns the nonce point with their sum |
| Frost.AggregateCorrect | frost.go:743-789 | if the public shares lie on one polynomial through the group key and every partial was accepted, the partials sum to nonce + challenge * secret |
| Frost.AggregateValue | frost.go:743-789 | whatever the group key, accepted partials whose public shares lie on one polynomial sum to nonce + challenge * its value at zero |
| Frost.SignsExactly | frost.go:743-789 | so, for a non-zero challenge, the aggregate signs under the group key if and only if that value is the key |
| Frost.AggregateSigns | frost.go:779-789 | so the aggregate satisfies z*B = R + c*A |
| Frost.SignsVerifies | frost.go:724-789 | under the computed challenge that is a valid Ed25519 signature (section 5.1.7 of RFC 8032) |
| Frost.HonestPartial | frost.go:610-625 | an honest partial passes the aggregator's check whatever orders both sides list the participants in |
| AggregatorRuns.Make | frost.go:643-775 | each call on an aggregator makes a step of the run relation |
| AggregatorRuns.SettledRunIsGood | frost.go:643-775 | over every sequence of calls that sets nothing any more once a share is held, every held share satisfies its equation in the final session |
| AggregatorRuns.SettledRunSigns | frost.go:643-789 | so its aggregate signs under the key whose shares the signers hold |
| FrostRound.Round | frost.go:794-834 | honest unused signers always produce a verifying signature, and a used signer or fewer than two fail |
| FrostRound.BlindSetup | blindfrost.go:54-84 | the blinded nonce and challenge are those of R + a*B + b*X |
| FrostRound.BlindVerifies | blindfrost.go:96-108 | unblinding an aggregate for the blinded challenge gives a valid signature on the true message |
| FrostRound.BlindRound | blindfrost.go:115-158 | the whole blind round of honest unused signers verifies for the true message |
| KeyShares.MemberRoundTrip | frost.go:449-461 | "M" and the decimal of x reads back as index x |
| KeyShares.MemberXExactly | frost.go:449-461 | only "M" and digits read as an index, and leading zeros do not count |
| KeyShares.Signer | frost.go:285-316 | a share file loads exactly when its fields decode and its share lies on the commitments it names |
| KeyShares.FileKeyIsLast | frost.go:285-316 | without a vector of its own the file is checked against the last global entry under its id |
| KeyShares.OneShareLoads | frost.go:285-316 | a file that names commitments loads under one share value alone |
| KeyShares.FrostSplit | frost.go:325-353 | the dealer's shares are the polynomial at 1..n with its commitments and the group key |
| KeyShares.DealtLoads | frost.go:285-353 | a dealt share's file loads if and only if t >= 2 or the secret is below the group order |
| KeyShares.DealtMembersSign | frost.go:325-353 | any t of the shares a dealer splits a key into, at indices below the group order, sign under that key |
| KeyShares.EvalOfSum | dkg.go:335-350 | the entrywise sum of coefficient vectors evaluates to the sum of the evaluations |
| KeyShares.SharesAddUp | frost.go:423-445 | verified pieces sum to a share that verifies against the summed commitments |
| Dkg.DkgGenerate | frost.go:392-418 | honest material: commitments of one polynomial and its value for each of the n members |
| Dkg.DkgFinalize | frost.go:423-445 | fails exactly when own material is missing or some piece is missing or off its commitments, else returns both sums |
| Dkg.FinalizableExactly | frost.go:423-445 | can be finalized: own material is there, and every piece is the value at this member's index of the polynomial its sender committed to |
| Dkg.DkgGlobalVK | dkg.go:335-350 | the in-place accumulation is the sum of all commitment vectors |
| Dkg.DkgNode.RecordPeer | dkg.go:265-289 | takes exactly a first exchange with t decodable commitments and a share on them, and otherwise changes nothing |
| Dkg.ExchangeExactly | dkg.go:265-289 | what is taken: t points of the group, and a non-zero share that is the value of the polynomial behind them at this member's index |
| Dkg.DkgNode.Finish | dkg.go:295-313 | whatever peers sent, a finished share verifies against the summed vector, the group key is its entry 0, and the share file loads |
| Dkg.SameGroupKey | dkg.go:295-350 | two finished nodes that saw the same commitment vectors have the same group key |
| Dkg.DkgMembersSign | frost.go:743-789 | any t members of one ceremony sign under its group key: every session of accepted partials satisfies the signing equation |
| Reshare.ReshareSplit | reshare.go:44-77 | fails exactly for a bad share, threshold, id or old set, else splits the weighted share over the new set |
| Reshare.ReshareCombine | reshare.go:84-132 | succeeds only if every piece verifies, always for honest pieces, and then holds the summed share and vector |
| Reshare.SplitHidesWeightedShare | reshare.go:55-66 | the hidden constant is the old member's Lagrange-weighted share, in any listing of the old set |
| Reshare.NewShareOnPolynomial | reshare.go:84-132 | a combined share is a point of the sum of the old holders' polynomials |
| Reshare.ReshareKeepsSecret | reshare.go:44-132 | that polynomial has tNew coefficients and the old secret as its value at zero, for every old and new threshold and index set |
| Reshare.SplitsAreOldHolders | reshare.go:44-77 | old holders that ran ReshareSplit hide their weighted shares behind polynomials with tNew coefficients |
| Reshare.CombinedOnPolynomial | reshare.go:84-132 | what ReshareCombine returns for the published vectors and any sub-shares that verify is a point of the sum of those polynomials |
| Reshare.HonestInbox | reshare.go:84-132 | with every sender's vector and sub-share delivered, ReshareCombine succeeds |
| Reshare.NewMembersSign | reshare.go:44-132 | end to end: any tNew new members that ran ReshareCombine on what the old holders' ReshareSplit published sign under the unchanged group key |
| Reshare.AnySendersSignExactly | reshare.go:84-132 | whoever sent the vectors and sub-shares, new members that combined the same vectors sign under the group key if and only if entry 0 of the summed vector is that key |
| Events.MembersUnsigned | timeline.go:199-207 | a valid handoff stays valid under a list of names if and only if the list is long enough, whoever is on it |
| Events.OneNameIsAQuorum | timeline.go:199-207 | one name repeated is a list that every minimum accepts |
| Events.ForeignPayloads | timeline.go:483-520 | a reader takes a foreign payload for one with empty fields, and fails on malformed bytes alone |
| Chains.WalkVerify | timeline.go:246-286 | returns the first index whose link, handoff or signature fails, or -1 when none does |
| Chains.PubForPrefix | timeline.go:322-340 | returns the key that rotations and handoffs leave current after the prefix |
| Chains.EventOkPrefix | timeline.go:246-286 | whether an event verifies depends on the events up to it alone |
| Chains.VerifiesGrow | timeline.go:246-286 | a chain with one more event verifies exactly when the chain and the new event do |
| Chains.HeadDeterminesChain | timeline.go:112-124 | two verifying chains with one link algorithm and the same head digest are identical, length included, whatever keys each was verified under |
| Chains.LastEventDetermines | timeline.go:112-124 | so does the last event, whatever the two link algorithms |
| Chains.TamperIsLocated | timeline.go:309-317 | replacing any non-last event i of a verifying chain is located at i or i+1 |
| Chains.AlterationIsLocated | timeline.go:246-286 | altering the signature or the body alone of any event of a verifying chain, the last included and of whatever type, is located at exactly that event |
| Chains.PubIsInForce | timeline.go:322-340 | the key current after a prefix is the one its last rotation or handoff names, or the start key without one |
| Chains.EventExactly | timeline.go:246-286 | an event verifies if and only if it is linked to its predecessor, signed with the key in force (a RECOVERY with the key of a handoff that the council signed for this position), and a rotation holds a key of the right length |
| Chains.Fold | timeline.go:491-520 | the loop computes the fold of the event list |
| Chains.FoldHolds | timeline.go:491-520 | a certificate is in that state if and only if some event issued it, and revoked there if and only if a revocation followed an issuance |
| Chains.FoldIdentity | timeline.go:491-520 | its identity is that of its last issuance before it was ever revoked |
| Chains.RevokedStays | timeline.go:502-517 | a certificate revoked after a prefix is revoked with the same identity after every extension |
| Chains.ScanLastEpoch | councilnet.go:514-528 | the scan returns the highest committed epoch, at least 0 |
| Chains.LastEpochIsHighest | councilnet.go:514-528 | no COMMIT has a higher epoch, and unless it is 0 some COMMIT has it |
| Timelines.Timeline.Append | timeline.go:148-156 | a writable timeline gains one event linked to its head and signed by its live key; a read-only one is unchanged and errors |
| Timelines.Timeline.RotateKey | timeline.go:220-238 | the rotation is signed by the outgoing key, which is recorded with its index, and the new key goes live |
| Timelines.Timeline.Verify | timeline.go:289-293 | true exactly when every event verifies |
| Timelines.Timeline.VerifyPrefix | timeline.go:298-305 | true exactly when the first n events verify, n clipped to the length |
| Timelines.Timeline.LocateBadEvent | timeline.go:309-317 | the first failing index of the whole chain, or -1 |
| Timelines.Timeline.KeyAt | timeline.go:367-374 | the loop returns the key of the first rotation at or after the index, else the live key |
| Timelines.Timeline.Fork | timeline.go:345-362 | fails exactly when no event has the hash, else copies up to the last match with the keys described above, leaving the original alone |
| Timelines.Perform | timeline.go:148-239 | appending, rotating and setting the anchor are the operations of the runs |
| Timelines.RunDisciplined | timeline.go:148-239 | every run of ordinary appends, rotations and anchor changes from a new timeline verifies in full and records for each index the key that signed there |
| Timelines.RunLive | timeline.go:148-239 | a verifying writable timeline whose live key is current keeps verifying under every such run |
| Timelines.ForkKeyMatches | timeline.go:357-374 | the private key a fork takes matches its public key exactly when the branch event does not rotate to another key |
| Timelines.ForkVerifiesExactly | timeline.go:345-362 | a fork of a verifying timeline verifies if and only if the key after its branch point is the start key or the chain opens with a recovery |
| Timelines.ForkLiveExactly | timeline.go:345-374 | it can moreover go on exactly when the start key is current both before and after its branch event |
| Timelines.ForkThenAppendExactly | timeline.go:345-374 | the first event appended to a fork verifies if and only if that condition holds |
| Timelines.ForkKeepsVerifying | timeline.go:345-374 | a fork taken before the first rotation keeps verifying under every run of further operations |
| Timelines.ForkAtRotationFails | timeline.go:357 | one rotation, then a fork at it, does not verify |
| Timelines.NoRepeat | timeline.go:246-286 | no event occurs twice in a verifying prefix |
| Graphs.SecurityGraph.AddEdge | graph.go:16-21 | one edge is added or relabelled and the rest stays |
| Graphs.SecurityGraph.Reachable | graph.go:25-43 | the queue loop ends on every graph, cyclic ones included, and returns the least closed set holding the start |
| Graphs.BuildGraph | graph.go:46-62 | the graph has exactly the identity and issuer edges of the parsable ISSUE events |
| Graphs.EdgesExactly | graph.go:46-62 | a node leads to a certificate exactly when an ISSUE event issues it to that identity or through that certificate |
| Rollbacks.LastAtExactly | timeline.go:348-353 | a checkpoint's hash names its own index exactly when no later event repeats it |
| Rollbacks.Rollback | rollback.go:11-16 | a new timeline for genesis, else the fork at the checkpoint hash |
| Rollbacks.InvalidationSet | rollback.go:23-50 | exactly the least set of certificates holding those issued or revoked at or after the bad index and closed under issuance through a member over the whole timeline, with exactly the identities issued to in the bad window |
| Rollbacks.BlastRadiusIsReach | rollback.go:23-50 | a certificate is in that least set if and only if a path of issuances, anywhere on the timeline, leads to it from one issued or revoked in the bad window |
| Rollbacks.BlastRadiusUnique | rollback.go:23-50 | there is only one such set, so neither map's order shows in it |
| Rollbacks.VerifyRecovery | rollback.go:74-94 | P3 and P5 are true exactly when nothing revoked came back, and when nothing outside the affected sets changed or was added |
| Recoveries.RecoveredFold | council.go:248-265 | the recovered timeline folds to the prefix fold plus one re-issued certificate per identity, then every present affected one revoked |
| Recoveries.OrderIrrelevant | council.go:250-263 | the folded state is the same for every iteration order of both maps |
| Recoveries.ChecksExactly | council.go:297-303 | P3 always holds of that state, and P5 holds if and only if no re-issued id lands on a good certificate of another identity |
| Recoveries.HandoffGood | timeline.go:256-276 | a handoff verifies exactly when the fork does, the council is its trust anchor and the descriptor names the fork's head |
| Recoveries.RolledBackGood | rollback.go:11-16 | when a rolled-back prefix verifies on its own |
| Recoveries.RecoveredVerifiesExactly | council.go:229-310 | the returned timeline verifies if and only if the council is the trust anchor and, with a prefix, the chain links by SHA-256, the checkpoint event is not repeated, and the start key is current again or replaced by a leading recovery |
| Recoveries.RotatedPrefixFails | council.go:235-245 | an instance: a rotation in the prefix makes recovery fail its verification |
| Recoveries.DualPrefixFails | council.go:315-320 | every recovery with a prefix on a dual-hash chain fails its verification |
| Recoveries.RecoveredEpoch | council.go:304-309 | the recovered epoch is the committed one unless the prefix held a higher |
| CouncilSigning.Council.SignCommit | council.go:70-140 | a handoff comes back only when the epoch follows, enough named holders ran both FROST rounds with shares not used before, and the aggregate is the group's signature; the epoch then advances and the shares are spent, and a council with fresh consistent shares always returns one |
| CouncilSigning.Ceremony | council.go:96-129 | the two rounds over the chosen signers in any order: none was used before, all are after, and consistent shares give a signature that verifies |
| CouncilSigning.HandoffVerifies | council.go:135-137 | such a handoff satisfies Ed25519's equation on its descriptor under the group key |
| CouncilSigning.Council.Recover | council.go:183-219 | succeeds only on a DETECTED event, a verifying prefix and a quorum, leaves the original timeline alone and returns one recovered at the very index its payload names; with a council sure to sign it does succeed |
| Incidents.WatchAndRecover | api.go:1067-1098 | from verdict to recovery: the evidence appended for a first bad index makes the council recover at that index, the whole chain's length when none is named |
| Councils.RecoverRollback | council.go:229-244 | the rolled-back fork under the new root and the same trust anchor, with the exact blast radius |
| Recoveries.RerootedExactly | council.go:229-244 | that fork keeps the events up to the last copy of the one before the bad index, under the new root's key pair and the timeline's own trust anchor |
| Councils.ReissueOnFork | council.go:248-265 | appends one issuance per identity and then one revocation per affected certificate, in some order of each |
| CouncilSigning.Council.FinishRecovery | council.go:269-311 | the outcome is a recovered timeline whose handoff the named holders signed, the epoch rises by one with it, and a council sure to sign recovers |
| Councils.Publish | council.go:292-310 | appends handoff, re-issuance and COMMIT to the fork and reports P3 as true and P5 by the clash condition |
| Councils.OutcomeHandsOver | council.go:269-292 | every outcome's handoff is for the next epoch, to the new root, names the last good event, and is signed by the council |
| Councils.OutcomeHolds | council.go:292-310 | every outcome's timeline is the kept prefix, right after it that handoff, and at the end its COMMIT |
| Councils.OutcomeReissues | council.go:248-265 | between them come first the reported re-issuances, each to an identity of the bad window |
| Councils.OutcomeRevokes | council.go:248-265 | and then revocations of certificates of the blast radius, and nothing else |
| Councils.RecoveryTail | council.go:183-311 | for every outcome: when its timeline verifies, what it folds to, and that its checks pass exactly without a clash |
| CouncilNets.CouncilMemberServer.Vote | councilnet.go:258-294 | a vote is given if and only if every event of the prefix verifies, its epoch is ahead of the member's, and the share is unused; the prefix's last hash and the next epoch are recorded as the one session |
| CouncilNets.CouncilMemberServer.Commit | councilnet.go:300-365 | a partial is released only if epoch, checkpoint, fork, post-conditions, own commitment and recomputed challenge all hold, and is the signer's partial over the voted nonces; anything else changes nothing |
| CouncilNets.CouncilMemberServer.CheckFork | councilnet.go:318-329 | accepts exactly a verifying fork that meets P3 and P5 against its own prefix |
| CouncilNets.CouncilMemberServer.CheckTranscript | councilnet.go:332-351 | accepts exactly a transcript with the member's own commitment and the challenge it recomputes |
| CouncilNets.SignedFork | councilnet.go:318-329 | behind every partial stands a fork in which every event verifies and whose state, against its own first events up to the bad index, resurrects nothing and changes nothing but what is said to be affected |
| CouncilNets.SignedTranscript | councilnet.go:332-351 | and a transcript with the member's own commitment, the hash-bound sum of all commitments as R, and the hash of that R as challenge |
| CouncilNets.VoteReleasable | councilnet.go:258-317 | after a vote there is a commit request that the member would sign if and only if the bad index is positive; the nonces are spent either way |
| CouncilNets.CheckedAtVote | councilnet.go:318-329 | the post-conditions a member checks are those of the prefix it voted for if and only if the request's bad index names the event with the descriptor's checkpoint in the fork it was sent |
| CouncilNets.WholeForkAccepted | councilnet.go:318-329 | a fork sent with its own length as bad index passes the re-check if and only if it verifies, whatever certificates and identities are called affected |
| CouncilNets.NextVote | councilnet.go:273-277 | with a fresh share, the member votes for the recovery after the one it signed if and only if that request's epoch was not above the descriptor's |
| CouncilNets.EpochOutruns | councilnet.go:300-365 | a member that would sign can be sent a request for the same descriptor after whose partial it refuses any given later vote |
| CouncilRuns.VoteStep | councilnet.go:258-294 | a vote is a step of the run, whatever the initiator sends |
| CouncilRuns.CommitStep | councilnet.go:300-365 | so is a commit request |
| CouncilRuns.StepKeeps | councilnet.go:258-365 | a step keeps a member to one vote and one partial, never lowers its epoch, and raises it with a partial |
| CouncilRuns.RunCareful | councilnet.go:258-365 | over every run with an arbitrary initiator and no restart, each member releases at most one partial, for the epoch and checkpoint it voted for |
| CouncilRuns.NoSplit | councilnet.go:406-486 | with n members and 2*minVotes > n, no two different descriptors both collect minVotes partials |
| CouncilRuns.BackersVoted | councilnet.go:313-317 | every backer of a descriptor signed only it, and had voted for its epoch and checkpoint |
| CouncilRuns.VotesVerified | councilnet.go:258-294 | over every run, whatever the initiator sends, every vote of every member is for a prefix whose events all verify |
| CouncilRuns.BackersShareAPrefix | councilnet.go:258-365 | all members that signed one handoff had verified one and the same prefix, whose last event it names |
| CouncilRuns.GenesisVoteSignsNothing | councilnet.go:313-317 | over every run, a member that spent its vote on a recovery from genesis never signs |
| RemoteRecovery.CollectVotes | councilnet.go:406-422 | the loop with its early stop computes the tally of the endpoints' answers |
| RemoteRecovery.TallyFromEndpoints | councilnet.go:414-421 | every vote in the tally is one endpoint's answer, next to the key share the initiator knows that endpoint by |
| RemoteRecovery.TallyMeans | councilnet.go:403-422 | the three maps agree under canonical indices and hold at most minVotes votes |
| RemoteRecovery.TallyIsComplete | councilnet.go:406-418 | while there are too few votes, every well-formed answer is in the tally |
| RemoteRecovery.Open | councilnet.go:451-464 | round one opens exactly the session over the tally's commitments and known key shares, with its challenge, and fails exactly when a point does not decode or nobody voted |
| RemoteRecovery.CollectShares | councilnet.go:465-483 | only verified partials are taken, and unless there are enough every one that cannot be refused |
| RemoteRecovery.Close | councilnet.go:465-490 | round two returns the sum of a verified partial of every signer of that session, at least minVotes, and cannot fail when exactly that many signers all answer |
| RemoteRecovery.Sign | councilnet.go:440-495 | the handoff is for the given descriptor, valid under the group key, and sealed by the tally's own session; cooperative members with shares of one polynomial always get one |
| RemoteRecovery.RemoteRecover | councilnet.go:390-511 | whatever the members answer, a recovery that returns holds a recovered timeline at the very index the evidence names and the chain's own next epoch, sealed by the session of at least minVotes members that voted, with the original left alone; it cannot return on silence, and it does return when enough members cooperate |
| RemoteRecovery.RemoteSignatureVerifies | councilnet.go:449-495 | if every voter answers under the id its known key share belongs to, no two of those ids meet modulo the group order, and the known shares are enough points of one polynomial through the group key, then whatever commitments and partials were sent, the R and z that come back satisfy Ed25519's equation on the descriptor |
| RemoteRecovery.SessionSignatureVerifies | councilnet.go:449-495 | the same for the aggregate of any finished session |
| RemoteRecovery.MemberCannotBeRefused | councilnet.go:342-364 | a member that computes its partial over the nonces it committed cannot be refused, in whatever order either side lists the signers |
| RemoteMembers.SignedStands | councilnet.go:429-446 | whatever a member holds, it signs the initiator's own request only for a positive bad index whose rolled-back prefix verifies on its own |
| RemoteMembers.InitiatorIsSigned | councilnet.go:300-446 | a member that voted for it signs RemoteRecover's own commit request if and only if the bad index is positive and the rolled-back prefix verifies on its own, and then stores the descriptor's epoch |
| RemoteMembers.SignedVerifiesExactly | councilnet.go:494-511 | of the recoveries that members sign, the published timeline verifies if and only if the group is the chain's trust anchor and the chain links by SHA-256 |
| RemoteMembers.AskCommit | councilnet.go:300-365 | the answer of a counted member to the initiator's own request cannot be refused by the aggregator |
| RemoteMembers.TallyIsFull | councilnet.go:406-425 | members with different ids, asked in turn until there are enough votes, fill the tally with exactly minVotes of them |
| RemoteMembers.CouncilCooperates | councilnet.go:406-483 | the two rounds of such members are all that the initiator needs |
| RemoteMembers.NetworkRecover | councilnet.go:258-511 | initiator and members end to end: a council with enough unspent shares of one key recovers if and only if the evidence names a positive index whose prefix verifies, also on its own after the roll-back; what it then publishes verifies exactly under two conditions more |
| Adoption.Tenant.HandleIssue | api.go:657-685 | refuses empty fields, fails on a read-only chain, else appends one ISSUE and counts it |
| Adoption.Tenant.HandleRevoke | api.go:691-719 | the same for REVOKE |
| Adoption.RevocationTakesHold | api.go:691-719 | after an accepted revocation that certificate, if the chain knows it, is revoked, and no other one changes |
| Adoption.IssuanceTakesHold | api.go:657-685 | after an accepted issuance that certificate is good for that identity unless it was revoked before, and no other one changes |
| Adoption.Tenant.Watch | api.go:1067-1098 | evidence is appended on the rising edge of a verdict alone |
| Adoption.Tenant.HandleRecover | api.go:783-855 | adopts exactly a fork that verifies under the trust anchor of its own upload, equals this chain before its first RECOVERY and has a higher committed epoch, submitted with some commit that the store's council signed and that lists at least three names |
| Adoption.Tenant.Descends | api.go:811-833 | true exactly when the fork has a RECOVERY and its earlier events are the current chain's |
| Adoption.HandleKeeps | api.go:783-845 | an adopted chain equals the previous one before its first RECOVERY; other requests only extend, and only adoption moves the epoch |
| Adoption.EpochsRise | api.go:834-837 | over every interleaving the epoch rises at least by the number of adoptions |
| Adoption.PrefixSurvives | api.go:783-845 | over every interleaving the events before every adopted RECOVERY are unchanged |
| Adoption.RevokedForGood | api.go:783-845 | a certificate revoked in that shared prefix stays revoked for the same identity |
| Adoption.AuthorisedExactly | api.go:798-808 | a RECOVERY event of an adopted fork, old or new, carries a handoff of the store's council if and only if the upload names that council as its trust anchor and the handoff lists enough names |
| Adoption.OtherCouncilAdopted | api.go:798-837 | an instance of the other case: for every chain, and with any commit that the council's key signed and that lists three names, a fork is adopted whose recovery another key signed |
| Adoption.HandleAuthorised | api.go:783-845 | one request keeps every recovery in the chain the council's own when its upload names the council, and an adoption whose upload does not breaks it |
| Adoption.OnlyCouncilRecovers | api.go:783-845 | over every interleaving in which each upload names the council, every RECOVERY event in the chain carries a handoff the council signed, though not necessarily a new one |
| Adoption.NewlyAuthorisedExactly | api.go:798-837 | an adopted fork holds a handoff of the store's council for an epoch above any given one, such as the chain's own, if and only if the upload names the council and holds a handoff above it |
| Adoption.OldHandoffAdopted | api.go:811-837 | the second failing way, for every chain of the council with a recovery in it: cut after the first one and closed by a COMMIT under the key that one handed over, it is adopted, with that old RECOVERY as its only one |
| Adoption.OldHandoffForgets | api.go:811-845 | it folds without any certificate first issued after that recovery, revoked or not |
| Adoption.EachRecoveryIsAnAct | api.go:783-845 | over every interleaving in which each adopted upload names the council and brings a handoff above every epoch so far, there are as many council handoffs, for ever higher epochs, as adoptions |
| Adoption.CheckpointNamesPrefix | api.go:823-833 | a RECOVERY of a verifying fork follows exactly the chain's own events if and only if its handoff names the chain's head there as its checkpoint |
| Adoption.RevocationsBeforeCheckpoint | api.go:823-845 | the revocations before such an index are in the adopted fold, for the same identities |
| Adoption.RecoveredIsAdoptable | api.go:783-845 | the timeline a council hands back passes the gate if and only if it verifies, a quorum signed, and the council's epoch is not behind the chain's |
| Detection.ClosedForm | detect.go:19-22 | S is the largest excess over all windows ending now, the empty one included |
| Detection.AlarmExactly | detect.go:19-25 | with a positive bound, S reaches it if and only if some window ending now has that excess |
| Detection.CUSUM.Observe | detect.go:19-22 | alarms at a step exactly when some window ending there has excess at least h |
| Detection.AnchorNotLater | watchdogs.go:110-114 | the recorded start is never later than the first batch of the current run of positive S |
| Detection.AnchorExactly | watchdogs.go:110-114 | it is the start of the first batch ever to lift S above zero, and -1 while none has |
| Detection.SampleCounts | watchdogs.go:63-92 | a sample is the number of ISSUE events of the batch, for the second kind of those whose payload names an issuing certificate |
| Detection.RunIsWindow | watchdogs.go:107-114 | the largest excess is that of the window that opens with the current run |
| Detection.Watchdog.ObserveBatch | watchdogs.go:63-92 | one batch feeds one sample, the count of issuances or of issuances through a certificate, and keeps the anchor |
| Detection.Watchdog.GetScore | watchdogs.go:122-141 | one score per batch, alarming exactly when a window of batches exceeds the bound |
| RateLimits.Limiter.Allow | ratelimit.go:41-60 | the bucket holds min(burst, tokens + rate * elapsed), a new one burst; it grants exactly when that is a whole token, takes one then, and touches no other key's bucket |
| RateLimits.BurstIsGranted | ratelimit.go:41-60 | a new key is granted exactly as many requests at one instant as a full bucket holds whole tokens |
| RateLimits.WindowBound | ratelimit.go:41-60 | grants to one key in any time window are at most burst + rate * length |
| RateLimits.GrantsCounted | ratelimit.go:41-60 | the grants so bounded are exactly the key's requests in the window that found a token |
| RateLimits.OwnExactly | ratelimit.go:41-60 | a key's own requests are those with the key, each as often as it was made |
| RateLimits.OthersDoNotMatter | ratelimit.go:41-60 | a key's grants depend on its own requests alone |
| RateLimits.OneToken | ratelimit.go:49 | a span refills a whole token exactly when it lasts at least 1/rate |
| RateLimits.IdleIsGranted | ratelimit.go:44-59 | a new key, or one idle for as long as one token takes, is granted when burst >= 1 |

## Left out

- Concrete cryptography (SHA-2/SHA-3, Ed25519 internals, ML-KEM, AES-GCM, X.509): idealised as described above or absent.
- Edwards coordinate formulas and point compression: a point is its discrete logarithm modulo the prime group order, so points of small order do not exist here.
- JSON: payloads are datatypes with a malformed case; an unmarshalled timeline or frame is a value or absent.
- Secrecy and unlinkability: nonces, coefficients, seeds and blinding factors are arbitrary inputs.
- 64-bit widths: sizes, indices and epochs are unbounded integers, and negative big integers in sub-shares are not modelled.
- Run-time panics (an index past the end, a singular denominator, signing with no key) are error results; a member that panics while voting is modelled up to the spent nonces.
- Sockets and dialling (what a council member answers is an input of RemoteRecovery, and a method call in RemoteMembers), TLS, HTTP routing, RBAC, sealing of frames and persistence, including the failure to save after an append or an adoption.
- FrostRound.BlindRound: the group key is taken below the group order, as every decoded point is.
- RemoteMembers.NetworkRecover: in round two every member is asked, where the program stops at minVotes partials; those outside the tally refuse and stay as they are.
- Restarts of a council member: its share is loaded afresh, so the one-partial property is stated for runs without one.
- HighestValidEpoch, the evidence score ensemble, webhooks, backups, audit ring and policy code: one-line claims or plumbing.
- Watchdog kinds W2, W4 and W5, p-values, and floating-point rounding: the count watchdogs only, over real numbers.
- Object aliasing of a tenant's timeline with timelines held elsewhere: a parsed or forked timeline is always a new object.
