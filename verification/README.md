# A verified model of the Nerion protocol core

Dafny models of the hard parts of Nerion, a post-quantum governance protocol, with proofs about them:
the proof-of-stake ledger and its gossip network, the RFC 6962 transparency log, zero-knowledge range,
membership and policy proofs, attenuating capabilities, the did:key codec, quorum counting, metering and
one-time keys. `dafny verify dfyconfig.toml` checks everything.

## How to read it

| files | what they hold |
|---|---|
| `Bits`, `Bytes`, `Collections` | binary arithmetic; byte strings and what a hash collision is; permutations, subsets and safe integers |
| `Merkle`, `MerkleShape`, `MerkleTheorems`, `SeedWidth`, `TransparencyLog` | the log: generation by recursive splitting, verification by bit decomposition, why they agree, and what widths do |
| `Stake`, `Sortition`, `Counting` | exact stake sums, leader choice, the two ways of counting signatures |
| `Ledger`, `Equivocation` | light-client finality, the chain of one node, evidence and slashing |
| `GossipSpec`, `GossipInvariants`, `GossipNode`, `GossipSystem` | a gossip node as a value, what its handlers keep, the node and the bus as objects, whole runs |
| `Scalars`, `ZkRange`, `SetMembership`, `PolicyProof` | arithmetic modulo the group order and the sigma protocols over it |
| `Capabilities`, `Base58` | grants, chains and resolution; base58, LEB128 and did:key |
| `QuorumReceipts`, `EvmProfile`, `Governance` | the other signature counts, the EVM set id and message |
| `Metering`, `OneTimeKeys` | credits and hash-based signature indices over whole runs |

Loops of the source are methods with invariants, proved against recursive functions; objects that are
updated in place are classes; the theorems are lemmas about those functions.

What is a parameter: hash functions (only their 32-byte width is known), signature checks, the verifiable
random function, hex decoding, random tapes, clocks, the signing engine. No property assumes that a hash is
injective: a binding claim ends in "or these two different hashed strings have the same hash", among a
stated set of strings. Unforgeability is stated as a record of what each honest node signed. Canonical
encodings are tuples. The group of the sigma protocols is the free module over its two generators, so a
commitment is its pair of coordinates; that the group order is prime is a hypothesis (`Prime(L)`) of the
claims that need it, and the inversion by a Fermat power is proved from it.

Where the code and its comments disagree, the model follows the code:

- `verifyConsistency` bounds the proof length only from above, although the comment beside it says that
  soundness does not depend on it (translog/src/merkle.ts:209-215). A shorter proof certifies a larger
  prefix: `ConsistencyCertifies` says which one, `ConsistencyAcceptsCertified` that such proofs exist,
  `ShortProofAccepted` gives an instance, `ConsistencySound` is the claim for proofs of the exact length, and
  `ConsistencyExactly` names all lengths at which the claim holds.
  No width is checked either, neither of the first element nor of the old root that the fold starts from at a
  power of two. At the exact length acceptance means the prefix root exactly for 32 bytes or more than 64
  (`ExactLengthWidths`): nothing wider than 64 passes (`OtherWidths`), and every other width up to 64 passes for
  some other root (`CutAccepted`, `CutRootDiffers`). `WidthsExactly` says it for every length and width.
- base58 decoding inverts encoding exactly when some byte is nonzero; a string of zeros comes back two bytes
  longer (`DecodeEncode`). Encoding is still injective.
- evidence pairs the last attestation of one block with the first of the other, so repeated attestations
  can hide genuine ones: any list of up to half the allowed length can be lengthened so that its block stays
  final and nobody is convicted (`RepeatedAttestationHides`, and a fork at `ForkHiddenByRepeats`). `DetectedProvesCaught` says exactly who is
  caught, and `DistinctConvicted` that without repetitions these are the staked voters of both blocks whose key
  is decodable.
- the light client decodes keys leniently and the evidence check strictly (ledger/src/chain.ts:491-495,
  ledger/src/equivocation.ts:45-56), so accountable safety is for sets whose keys the strict decoder accepts;
  others escape (`UndecodableEscapes`, and a fork at `ForkHiddenByKeys`).
- the homomorphic aggregate check enforces its cap for exactly the public aggregates that cannot wrap around
  the group order (`SumExactly`); for every other one the verifier accepts an amount beyond the cap.
- approvals in the names of members spend the verification budget even if they are invalid, so a genuine
  quorum can be refused (`BudgetSpent`); `EnactedExactly` says for every list when it is not.
- `verifyEvmFinality` is said never to throw (ledger/src/evmprofile.ts:214-215); it throws exactly when all is
  well but the suite has no signer (`VerifyEvmFinality`, and at an input `ThrowsWithoutSigner`).
- the rollback check of one-time keys accepts every floor for a key that is missing from the store
  (`FloorDetectsReuse`).

## Model

| member | source | states |
|---|---|---|
| Bits.ComputeBitLength | translog/src/merkle.ts:42-48 | the loop counts the binary digits |
| Bits.ComputePopcount | translog/src/merkle.ts:50-56 | the loop counts the one bits |
| Bits.ComputeTrailingZeros | translog/src/merkle.ts:58-69 | the loop counts the zeros below the lowest one bit |
| Merkle.ComputeSplitPoint | translog/src/merkle.ts:71-76 | the doubling loop finds the largest power of two below the size |
| Merkle.VerifyInclusion | translog/src/merkle.ts:117-151 | the index arithmetic and the two hash chains decide exactly the acceptance predicate, for every input |
| Merkle.VerifyConsistency | translog/src/merkle.ts:171-226 | the same for the consistency verifier with its trivial cases, seed choice and two root checks |
| MerkleShape.LeafDirsAreBits | translog/src/merkle.ts:117-137 | the directions of the recursive audit path are the bits that the verifier reads, for every size and index |
| MerkleShape.NodeDirsAreBits | translog/src/merkle.ts:171-226 | the directions of the recursive subproof are the shifted bits that the consistency verifier reads |
| MerkleTheorems.InclusionComplete | translog/src/merkle.ts:87-151 | every generated audit path is accepted against the root |
| MerkleTheorems.InclusionSound | translog/src/merkle.ts:117-151 | a path accepted against the true root is the generated one and its leaf is that entry, or hashed strings collide; leaves and nodes cannot be confused |
| MerkleTheorems.ConsistencyComplete | translog/src/merkle.ts:154-226 | every generated consistency proof is accepted, for all pairs of sizes up to that of the log |
| MerkleTheorems.ConsistencySound | translog/src/merkle.ts:171-226 | a proof of the exact length accepted against the true new root forces the old root to be that of the prefix, or hashed strings collide |
| MerkleTheorems.ConsistencyCertifies | translog/src/merkle.ts:171-226 | a proof of any accepted length certifies the prefix that its length leads to, or hashed strings collide |
| MerkleTheorems.ConsistencyAcceptsCertified | translog/src/merkle.ts:171-226 | conversely, for every such length a proof of that prefix is accepted |
| MerkleTheorems.ConsistencyExactly | translog/src/merkle.ts:171-226 | without a collision, acceptance of proofs with a digest-wide seed means the prefix root for exactly these lengths: those refused, those that lead outside the tree or, for a power of two, off its left edge, and those that lead to a node ending at the claimed size |
| MerkleTheorems.ExactLengthCertifies | translog/src/merkle.ts:171-226 | the exact length certifies the claimed size |
| MerkleTheorems.PrefixRootsDiffer | translog/src/merkle.ts:78-84 | roots of prefixes of different sizes differ, or hashed strings collide |
| MerkleTheorems.ShortProofAccepted | translog/src/merkle.ts:209-222 | a proof that is too short is accepted for the new root, which is not the prefix root or hashed strings collide |
| MerkleTheorems.SeedWidthMatters | translog/src/merkle.ts:203-222 | an instance with four entries: a first element of 33 bytes is accepted at the exact length, over another hashed string than the prefix root |
| SeedWidth.CutAccepted | translog/src/merkle.ts:194-222 | at every length that leads to an inner node, the exact one included, and for every width up to 64 a proof whose fold starts from that many bytes is accepted |
| SeedWidth.CutRootDiffers | translog/src/merkle.ts:194-222 | unless the width is 32, its old root is not the prefix root, or hashed strings collide |
| SeedWidth.OtherWidths | translog/src/merkle.ts:194-222 | a start of another width than 32 is accepted only at such a length and up to 64 bytes, or hashed strings collide |
| SeedWidth.WidthsExactly | translog/src/merkle.ts:171-226 | without a collision, for every length and width: exactly when acceptance means the prefix root |
| SeedWidth.ExactLengthWidths | translog/src/merkle.ts:171-226 | at the exact length: exactly for a start of 32 bytes or of more than 64, for every size of the old log |
| TransparencyLog.Log.Append | translog/src/log.ts:43-47 | appends exactly the entry and returns index, size and new root; earlier entries stay |
| TransparencyLog.Log.ProveInclusion | translog/src/log.ts:58-69 | the witness names index, size, entry and root and is accepted by the verifier; refused exactly out of range |
| TransparencyLog.Log.ProveConsistency | translog/src/log.ts:71-81 | the witness names both sizes, links the old and the current root and is accepted; refused exactly out of range |
| TransparencyLog.DetectEquivocation | translog/src/sth.ts:103-122 | every report is witnessed by two authentic heads of one operator and size with different roots, and every operator and size with such a conflict is reported |
| Stake.StakeIndex | ledger/src/sortition.ts:66-90 | the first-entry index agrees with the linear lookup for every key |
| Sortition.SelectLeader | ledger/src/sortition.ts:105-122 | the sorted cumulative walk over the draw modulo the total stake |
| Sortition.VrfLeaderEligible | ledger/src/leader.ts:43-56 | holds for exactly the key that the same walk selects |
| Sortition.LeaderInterval | ledger/src/sortition.ts:105-122 | a key leads exactly on the draws in its stake interval |
| Sortition.LeaderProportional | ledger/src/sortition.ts:105-122 | exactly as many draws select a key as it has stake |
| Sortition.LeaderExists | ledger/src/sortition.ts:105-122 | a draw selects a leader exactly if there is stake, so the fallback is never reached |
| Sortition.LeaderOrderIndependent | ledger/src/sortition.ts:105-122 | the leader does not depend on the order of the validators |
| Counting.CountFirstExact | ledger/src/chain.ts:408-464 | trying each staked voter once counts exactly the voters whose first relevant signature verifies, and their stake |
| Counting.CountAnyExact | receipts/src/quorum.ts:121-150 | counting first valid signatures counts exactly the members with some valid one |
| Counting.CountAnyOrderIndependent | receipts/src/quorum.ts:121-150 | that count does not depend on the order of the list |
| Counting.FirstVersusAny | ledger/src/chain.ts:408-464 | the first way never counts more than the second, and as much for one signature each |
| Ledger.VerifyViewChangeCert | ledger/src/leader.ts:90-151 | accepts exactly certificates with a quorum of timeout votes for that height, parent and round |
| Ledger.VerifyFinalized | ledger/src/chain.ts:288-489 | the verdict with its reasons, stakes and finality flag, for every block and list of attestations |
| Ledger.FinalizedHasQuorum | ledger/src/chain.ts:288-489 | a final block passed every check and has validators with the threshold share of all stake behind it |
| Ledger.AttestingStakeBounds | ledger/src/chain.ts:408-488 | the attesting stake is at most that of all valid signers, equal for one attestation each, and finalized implies ok |
| Ledger.Chain.Submit | ledger/src/chain.ts:207-220 | appends exactly final blocks on the head, otherwise changes nothing |
| Ledger.SubmittedLinked | ledger/src/chain.ts:207-220 | heights stay consecutive, hashes linked, and every block has a quorum |
| Equivocations.DetectEquivocations | ledger/src/equivocation.ts:61-99 | one proof for each validator with attestations of both blocks, pairing last with first, and no other |
| Equivocations.Slash | ledger/src/equivocation.ts:196-229 | removes exactly the validators that a valid proof of the batch names; over the cap nothing |
| Equivocations.DetectedProvesCaught | ledger/src/equivocation.ts:61-122 | exactly which validators the detected proofs convict |
| Equivocations.AccountableSafety | ledger/src/equivocation.ts:61-229 | two final blocks at one height: slashing what is detected removes at least (2 num - den) / den of all stake |
| Equivocations.HonestNeverSlashed | ledger/src/equivocation.ts:102-122 | a validator that signs one hash for each height is convicted by no proof |
| Equivocations.DistinctConvicted | ledger/src/equivocation.ts:61-122 | for lists without repeated validators: exactly the staked voters of both blocks with a decodable key are convicted |
| Equivocations.RepeatedAttestationHides | ledger/src/equivocation.ts:75-97 | stale repetitions behind any list of up to half the allowed length leave the verdict on its block as it was, and detection against any other block convicts nobody |
| Equivocations.ForkHiddenByRepeats | ledger/src/equivocation.ts:75-97 | two blocks are final at one height, and nobody is convicted because one list repeats a validator |
| Equivocations.UndecodableEscapes | ledger/src/equivocation.ts:45-56 | no list of proofs convicts a validator whose key the strict decoder refuses |
| Equivocations.ForkHiddenByKeys | ledger/src/equivocation.ts:45-56 | two blocks are final at one height, and nobody is convicted because no key is decodable |
| GossipInvariants.TryFinalizeInv | ledger/src/gossip.ts:301-311 | finalizing keeps the node invariant |
| GossipInvariants.OnAttestationInv | ledger/src/gossip.ts:261-299 | an attestation keeps it: pool bounds, exact inverse index, one entry for each validator |
| GossipInvariants.OnBlockInv | ledger/src/gossip.ts:210-242 | a block keeps it: known blocks bounded and at the current height, one signature for each height |
| GossipInvariants.BufferFutureInv | ledger/src/gossip.ts:245-259 | buffering keeps the height window, the bound and distinct hashes |
| GossipInvariants.PruneInv | ledger/src/gossip.ts:322-352 | pruning moves the invariant to the new height and keeps the rebuilt index exact |
| GossipInvariants.DrainInv | ledger/src/gossip.ts:322-359 | draining ends, in a state where every buffer is about the current height or the window after it |
| GossipInvariants.OnMessageInv | ledger/src/gossip.ts:204-208 | every message leads from a quiet state to a quiet state, and the chain never shrinks |
| GossipInvariants.ProposeInv | ledger/src/gossip.ts:195-202 | so does proposing |
| GossipNodes.GossipNode.constructor | ledger/src/gossip.ts:157-167 | a new node is in the initial state and registered on the bus |
| GossipNodes.GossipNode.OnMessage | ledger/src/gossip.ts:204-208 | the object's new state is the specified one, and quiet |
| GossipNodes.GossipNode.ProposeIfLeader | ledger/src/gossip.ts:195-202 | proposes exactly as the leader, and delivers to itself; throws exactly without stake |
| GossipNodes.GossipNode.OnBlock | ledger/src/gossip.ts:210-242 | the whole effect of a block on the node's maps and chain |
| GossipNodes.GossipNode.OnAttestation | ledger/src/gossip.ts:261-299 | the whole effect of an attestation |
| GossipNodes.GossipNode.BufferFuture | ledger/src/gossip.ts:245-259 | the whole effect of a block ahead of the chain |
| GossipNodes.GossipNode.TryFinalize | ledger/src/gossip.ts:301-311 | the whole effect of trying to finalize a hash |
| GossipNodes.GossipNode.DrainBuffered | ledger/src/gossip.ts:322-359 | the pruning and replaying loop computes the recursive drain, and ends because the buffer shrinks |
| GossipNodes.GossipNode.RebuildIndex | ledger/src/gossip.ts:341-352 | the nested loops rebuild exactly the inverse of the pool |
| GossipNodes.GossipBus.Broadcast | ledger/src/gossip.ts:95-100 | queues one copy for each other reachable peer, in order of registration |
| GossipNodes.GossipBus.constructor | ledger/src/gossip.ts:79-84 | a fresh bus is in the initial state of the system, whoever joins later |
| GossipNodes.GossipBus.Join | ledger/src/gossip.ts:157-167 | a node that joins leaves the state of the system and its run as they were |
| GossipNodes.GossipBus.DeliverNext | ledger/src/gossip.ts:105-111 | delivering the oldest message to its handler and queueing what it floods is a step of the system and extends the run |
| GossipNodes.GossipBus.Propose | ledger/src/gossip.ts:195-202 | so is letting a node propose |
| GossipNodes.GossipBus.BroadcastForeign | ledger/src/gossip.ts:95-100 | a broadcast by anyone of a message that they can make is a series of steps of the adversary |
| GossipNodes.GossipBus.Run | ledger/src/gossip.ts:103-113 | the delivery loop extends the run by one step for each delivery, until the queue is empty or the cap is hit |
| GossipNodes.GossipBus.SetReachability | ledger/src/gossip.ts:91-93 | partitioning changes no state of the system |
| GossipNodes.GossipBus.AgreeNow | ledger/src/gossip.ts:79-359 | after any joins, proposals, broadcasts, partitions and deliveries on a bus, with few faulty validators, no two nodes on it have final blocks with different hashes at one height |
| GossipNodes.GossipBus.Agree | ledger/src/gossip.ts:79-359 | nor has a node now and another at any earlier moment |
| GossipSystem.NextKept | ledger/src/gossip.ts:79-359 | every step of nodes and adversary keeps the system invariant, and no record of a signature is lost |
| GossipSystem.RunInv | ledger/src/gossip.ts:79-359 | so every state of every run satisfies it |
| GossipSystem.Agreement | ledger/src/gossip.ts:210-359 | with faulty stake below (2 num - den) / den, no two honest nodes ever finalize different hashes at one height, at any two times of any run |
| GossipSystem.SoleRun | ledger/src/gossip.ts:195-359 | such runs with a final block and few faulty validators exist: a sole validator proposes once |
| GossipSystem.PrefixComparable | ledger/src/gossip.ts:210-359 | at any moment one of two honest chains extends the other |
| GossipSystem.HonestNodeKept | ledger/src/equivocation.ts:196-229 | in every run no list of genuine attestations convicts an honest node |
| GossipSystem.Accountability | ledger/src/equivocation.ts:61-229 | in every run, however much stake is faulty: if two honest nodes finalize different hashes at one height, the attestations they stored convict at least (2 num - den) / den of all stake, unless a list is over the cap of the detection, and no honest node |
| Scalars.ModPow | disclosure/src/zkrange.ts:56-66 | square and multiply computes the power |
| Scalars.InverseOfPow2 | disclosure/src/zkrange.ts:67-67 | the power by the order less two inverts powers of two, from the primality of the order |
| ZkRange.NegIsMul | disclosure/src/zkrange.ts:51-51 | the multiple by the order less one is the negation |
| ZkRange.BitComplete | disclosure/src/zkrange.ts:135-163 | every proof of a committed bit is accepted, for every oracle and tape |
| ZkRange.BitSound | disclosure/src/zkrange.ts:154-163 | two accepted answers with equal first messages and different challenges force a commitment to a bit |
| ZkRange.BuildBits | disclosure/src/zkrange.ts:167-188 | the loops build the bits, blindings and commitments |
| ZkRange.CombinedAll | disclosure/src/zkrange.ts:165-188 | the weighted commitments add up to the commitment to the value with the given blinding |
| ZkRange.ProveBelow | disclosure/src/zkrange.ts:225-246 | makes the specified proof exactly for amounts in range and below the threshold, and the verifier accepts it |
| ZkRange.VerifySub | disclosure/src/zkrange.ts:201-219 | decides the weighted sum check and every bit check |
| ZkRange.VerifyBelow | disclosure/src/zkrange.ts:263-280 | decides the acceptance predicate, with the verifier's own width |
| ZkRange.RangeComplete | disclosure/src/zkrange.ts:135-280 | every proof that the prover makes is accepted, for every oracle, opening and tape |
| ZkRange.RangeSound | disclosure/src/zkrange.ts:154-280 | a proof accepted twice with equal first messages and different challenges hides an amount from 0 on and below the threshold, as integers |
| ZkRange.RangeExactly | disclosure/src/zkrange.ts:135-280 | a commitment has two accepted proofs with equal first messages and different challenges exactly when its amount is below the threshold |
| ZkRange.NoWrapExactly | disclosure/src/zkrange.ts:248-264 | the cap of 251 bits is exact: two ranges can alias around the order from 252 bits on, and not before |
| SetMembership.ProveMembership | disclosure/src/setmembership.ts:85-119 | simulates all branches but one and answers that one; refuses empty or oversized sets and strangers |
| SetMembership.VerifyMembership | disclosure/src/setmembership.ts:125-147 | recomputes the first messages and decides the sum check |
| SetMembership.MembershipComplete | disclosure/src/setmembership.ts:85-147 | for every set of 1 to 1024 elements and every member the proof exists and is accepted |
| SetMembership.MembershipSound | disclosure/src/setmembership.ts:125-147 | two accepted proofs with equal first messages and different challenges: the committed value is a member |
| SetMembership.MembershipExactly | disclosure/src/setmembership.ts:85-147 | a commitment has two such proofs exactly when its value is a member |
| PolicyProof.ProvePolicySatisfaction | disclosure/src/policyproof.ts:101-114 | makes a proof exactly for provable amounts; it is accepted unless a cap comes without an aggregate |
| PolicyProof.VerifyPolicySatisfaction | disclosure/src/policyproof.ts:123-145 | decides both range proofs and refuses missing or stray parts |
| PolicyProof.ShiftedCommitment | disclosure/src/zkrange.ts:79-81 | shifting a commitment commits to the sum |
| PolicyProof.SeemingAccepted | disclosure/src/policyproof.ts:123-145 | the verifier accepts a proof for every amount within the ceiling whose sum is within the cap modulo the order, under every oracle |
| PolicyProof.PolicyExactly | disclosure/src/policyproof.ts:101-145 | exactly such amounts have two accepted proofs with equal first messages and different challenges |
| PolicyProof.SumExactly | disclosure/src/policyproof.ts:135-140 | every commitment with two such proofs keeps to the cap as integers exactly under the public aggregates that cannot wrap |
| PolicyProof.PolicySound | disclosure/src/policyproof.ts:123-145 | the committed amount is within the ceiling, and with an aggregate that cannot wrap within the cap |
| Base58.MulAdd | capabilities/src/profile.ts:81-91 | the two carry loops compute the digits of the multiplied sum |
| Base58.Base58Encode | capabilities/src/profile.ts:76-96 | the loops compute the encoding |
| Base58.Base58Decode | capabilities/src/profile.ts:98-119 | the loops compute the decoding, or refuse a foreign character |
| Base58.AlphabetChars | capabilities/src/profile.ts:74-74 | the characters are those of the alphabet, in order |
| Base58.DecodeEncode | capabilities/src/profile.ts:76-119 | decoding inverts encoding exactly on byte strings with a nonzero byte; the others grow by two |
| Base58.EncodeDecode | capabilities/src/profile.ts:76-119 | encoding inverts decoding exactly on valid strings with a digit other than zero |
| Base58.EncodeInjective | capabilities/src/profile.ts:76-96 | different byte strings have different encodings |
| Base58.UnsignedVarint | capabilities/src/profile.ts:124-137 | the loop computes the LEB128 bytes; negative codes are refused |
| Base58.VarintDelimits | capabilities/src/profile.ts:124-137 | a varint determines where it ends |
| Base58.DidKeyFromPublicKey | capabilities/src/profile.ts:147-153 | the identifier of a code and a key, for every code that is not negative |
| Base58.DidKeyInjective | capabilities/src/profile.ts:147-153 | different codes or keys have different identifiers |
| Capabilities.AttenuationShrinks | capabilities/src/grant.ts:14-130 | what an attenuation authorizes, its parent authorizes |
| Capabilities.NarrowAttenuates | capabilities/src/grant.ts:155-183 | a narrowed grant is an attenuation exactly when the parent is well formed and the requested numbers fit |
| Capabilities.NarrowIntersects | capabilities/src/grant.ts:155-183 | a narrowed grant authorizes exactly what both the parent and the restriction allow |
| Capabilities.VerifyChain | capabilities/src/capability.ts:133-189 | accepts exactly chains whose every link follows from the one before or from a trusted root |
| Capabilities.ChainAttenuates | capabilities/src/capability.ts:133-189 | on an accepted chain what a link authorizes every earlier link authorizes |
| Capabilities.DelegatedAccepted | capabilities/src/capability.ts:66-189 | capabilities built by issuing and delegating are accepted exactly up to 31 delegations |
| Capabilities.Resolve | capabilities/src/resolver.ts:35-77 | the first candidate that authorizes the intent, or denial |
| Capabilities.TailDecides | capabilities/src/resolver.ts:66-70 | checking the last grant decides what checking all of them decides |
| Capabilities.ResolveAntitone | capabilities/src/resolver.ts:35-77 | revoking more never authorizes more |
| Capabilities.ResolveOrderIndependent | capabilities/src/resolver.ts:35-77 | the order of the candidates does not matter |
| QuorumReceipts.CountDistinctValid | receipts/src/quorum.ts:121-150 | one callback for each member with a valid attestation |
| QuorumReceipts.VerifyQuorumReceipt | receipts/src/quorum.ts:160-201 | exactly when a receipt passes, by distinct members |
| QuorumReceipts.VerifyQuorumReceiptByStake | receipts/src/quorum.ts:209-258 | exactly when it passes, by the stake of the last entries of distinct members |
| QuorumReceipts.CountedExactly | receipts/src/quorum.ts:121-201 | exactly the members with some valid attestation under the committed suite are counted |
| QuorumReceipts.CountedOrderIndependent | receipts/src/quorum.ts:121-201 | in any order of the list |
| QuorumReceipts.LastIsFirst | receipts/src/quorum.ts:231-231 | without repeated keys the last-entry stakes are the ledger's |
| EvmProfile.U256 | ledger/src/evmprofile.ts:67-78 | the big-endian word, or refusal out of range |
| EvmProfile.WordInjective | ledger/src/evmprofile.ts:67-78 | words are injective |
| EvmProfile.CmpBytes | ledger/src/evmprofile.ts:107-113 | the sign of the lexicographic order |
| EvmProfile.CanonicalIs | ledger/src/evmprofile.ts:127-144 | the canonical members are the one strictly ascending arrangement; none if two keys are equal |
| EvmProfile.CanonicalOrderIndependent | ledger/src/evmprofile.ts:127-144 | they do not depend on the order of the validators |
| EvmProfile.EvmSetId | ledger/src/evmprofile.ts:147-153 | the loop folds the canonical members and the epoch into the id, or refuses a malformed set |
| EvmProfile.SetIdOrderIndependent | ledger/src/evmprofile.ts:147-153 | nor does the id |
| EvmProfile.SetIdBinds | ledger/src/evmprofile.ts:147-153 | equal ids have the same epoch and canonical members, or hashed strings collide |
| EvmProfile.MessageBinds | ledger/src/evmprofile.ts:159-180 | equal messages have the same suite, destination, height, block and set, or hashed strings collide |
| EvmProfile.CountAttesting | ledger/src/evmprofile.ts:257-273 | the attesting stake is exactly that of the members with some valid signature |
| EvmProfile.VerifyEvmFinality | ledger/src/evmprofile.ts:217-279 | exactly when a block is final, with the attesting and the total stake, and when the code throws |
| EvmProfile.GetsToSignatures | ledger/src/evmprofile.ts:232-257 | an input that passes every check before the signer is looked up, under every suite |
| EvmProfile.ThrowsWithoutSigner | ledger/src/evmprofile.ts:257-257 | there the verifier throws under every suite without a signer |
| EvmProfile.SignersOrderIndependent | ledger/src/evmprofile.ts:257-273 | in any order of the signatures |
| Governance.Enact | governance/src/quorum.ts:107-175 | the loop with its early exits computes the specified outcome |
| Governance.StrangersIrrelevant | governance/src/quorum.ts:164-171 | lists with the same approvals by members have the same outcome |
| Governance.InsertStrangers | governance/src/quorum.ts:164-171 | inserting approvals of strangers anywhere keeps the approvals by members |
| Governance.EnactedHasQuorum | governance/src/quorum.ts:107-175 | whatever the list, an enacted proposal is in its window and approved by the threshold of members |
| Governance.EnactedExactly | governance/src/quorum.ts:107-175 | for every list: enacted exactly when in its window and some part of the list shows the threshold of members before the signature checks it asks for exceed the budget |
| Governance.EnactedWithinBudget | governance/src/quorum.ts:107-175 | with no more member approvals than the budget: enacted exactly when in its window and approved by the threshold of members |
| Governance.ApproversOrderIndependent | governance/src/quorum.ts:164-171 | who approved does not depend on the order |
| Governance.BudgetSpent | governance/src/quorum.ts:162-171 | invalid approvals in the names of members refuse a proposal in its window that a quorum of members approved |
| Governance.RevocationRegistry.EnactRevocation | governance/src/quorum.ts:178-193 | revokes exactly the target of an enacted revocation |
| Metering.MeteringLedger.Grant | settlement/src/credits.ts:89-129 | credits once for each nonce, within safe integers, or changes nothing |
| Metering.MeteringLedger.Meter | settlement/src/credits.ts:136-152 | debits once for each reference, within the balance, or changes nothing |
| Metering.Conservation | settlement/src/credits.ts:89-152 | over every run a balance is accepted grants less accepted meterings, and stays in range |
| Metering.OnceOnly | settlement/src/credits.ts:89-152 | a nonce credits and a reference debits at most once |
| OneTimeKeys.SoftwareOtsStateStore.Reserve | keystore/src/hbs-state.ts:72-95 | burns the next index, or refuses and burns none |
| OneTimeKeys.FloorDetectsReuse | keystore/src/hbs-state.ts:97-107 | after a rollback to any earlier point of a run, a stored key meets the floor of indices the run used exactly when its next index is new; a key the rollback lost meets every floor, and its next index is a used one as soon as any was used |
| OneTimeKeys.FloorStaysMet | keystore/src/hbs-state.ts:97-107 | a floor that a stored key meets stays met for the rest of every run |
| OneTimeKeys.FloorMetByRun | keystore/src/hbs-state.ts:97-107 | without a rollback, a key meets the floor of the indices used at any earlier point |
| OneTimeKeys.HbsKeyProvider.Sign | keystore/src/hbs-state.ts:140-145 | refuses by policy, then by reservation, and else returns what the engine makes of the granted index; the record of handed indices follows the calls |
| OneTimeKeys.NeverReused | keystore/src/hbs-state.ts:72-145 | over every run the indices of a key are 0, 1, 2 and so on, without repeats, within its tree |
| OneTimeKeys.RefusedBurnsNone | keystore/src/hbs-state.ts:136-145 | a refused call burns no index |

## Left out

- Primitive cryptography, the verifiable random function, canonical encodings, hex decoding and the id hashes are parameters.
- Liveness: that messages are delivered and that the bus becomes quiet. A node hands its flooded messages to the bus at the end of a step; nothing reads the queue within one.
- GossipNodes.GossipBus.Join: does not cover registering a second node under an id, which replaces the first on the bus and forgets what it signed.
- Zero knowledge and hiding of the sigma protocols, which the free-module model cannot express.
- `Prime(L)`: that the ristretto255 group order is prime is a hypothesis.
- Ledger.VerifyViewChangeCert: the signature check is a total function of the hex key; the code throws on a staked key that is not hex (ledger/src/leader.ts:137).
- EvmProfile.CanonicalIs: the library sort is modelled by insertion; any sort gives the same strictly ascending list.
- Signing and verifying tree heads, `checkAppendOnly`, persistent logs: guards around what is modelled.
- EVM-profile equivocation proofs: the native ones are modelled.
- Proof digests and category codes of the disclosure modules: hashes of tuples.
- Caveats of permits, the kernel, attestation, permits and their chains, key sealing, verifiable-credential projection, `verifyGrant`, the local kill switch: guard-by-guard code or formatting.
- A failure of the issuer's signature after a grant was booked, and non-integer numbers.
