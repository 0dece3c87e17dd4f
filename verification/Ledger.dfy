/**
 The proof-of-stake ledger: light-client verification of a finalized block and the chain that a
 node builds from verified blocks. Encodings are tuples; hashing, signatures and the verifiable
 random function are parameters.
 */
module Ledger {
  import opened ByteStrings
  import opened Collections
  import opened Stake
  import opened Counting
  import Sortition

  const GENESIS_PREV: string := "0000000000000000000000000000000000000000000000000000000000000000"

  datatype Header = Header(height: int, prevHash: string, round: int, proposer: string,
                           payloadRoot: string, timestamp: int, vrfOutput: Option<string>)

  datatype TimeoutVote = TimeoutVote(height: int, prevHash: string, round: int, validator: string, suite: string,
                                     sig: Bytes)

  datatype ViewChangeCert = ViewChangeCert(round: int, votes: seq<TimeoutVote>)

  datatype Block = Block(header: Header, proposerSig: Bytes, suite: string,
                         vrfProof: Option<Bytes>, viewChangeCert: Option<ViewChangeCert>)

  datatype Attestation = Attestation(blockHash: string, height: int, validator: string, suite: string, sig: Bytes)

  datatype FinalizedBlock = FinalizedBlock(block: Block, hash: string, attestations: seq<Attestation>,
                                           attestingStake: nat)

  /** The three kinds of signed messages; their tags keep them apart. */
  datatype Message =
    | BlockMessage(suite: string, hash: string)
    | AttestMessage(suite: string, height: int, hash: string, setId: string)
    | TimeoutMessage(suite: string, height: int, prevHash: string, round: int, setId: string)

  datatype VrfOutput = VrfOutput(hex: string, value: nat)

  datatype Crypto = Crypto(
    blockHash: Header -> string,
    setId: ValidatorSet -> string,
    /** Suite, signature, message and hex key; false for an unknown suite. */
    verify: (string, Bytes, Message, string) -> bool,
    /** The public draw for a previous hash and a round. */
    draw: (string, int) -> nat,
    /** Key, previous hash, round and proof of the verifiable random function. */
    vrfVerify: (string, string, int, Bytes) -> Option<VrfOutput>,
    toLowerCase: string -> string)

  datatype Options = Options(expectedHeight: Option<int>, expectedSuite: Option<string>)

  datatype Reason =
    | TooManyAttestations | WrongSuite | WrongHeight | WrongPrevHash | BadRound | NoStake
    | LegacyBlockInVrfSet | NoViewChangeCert | ProposerHasNoVrfKey | VrfProofInvalid | VrfOutputMismatch
    | NotVrfEligible | VrfBlockInLegacySet | NonCanonicalRound | NotTheLeader | BadProposerSignature
    | DegenerateThreshold | MalformedSet | BelowFinality

  datatype Verdict = Verdict(ok: bool, finalized: bool, attestingStake: nat, totalStake: nat, reasons: seq<Reason>)

  function MaxVotes(set_: ValidatorSet): nat {
    if |set_.validators| * 4 > 256 then |set_.validators| * 4 else 256
  }

  predicate ValidThreshold(num: int, den: int) {
    num >= 1 && den >= 1 && num <= den
  }

  predicate QuorumMet(stake: nat, total: nat, num: int, den: int) {
    stake * den >= num * total
  }

  // --- view-change certificates ---

  function VoteBallot(cx: Crypto, set_: ValidatorSet, suite: string, height: int, prevHash: string, round: int,
                      v: TimeoutVote): Ballot {
    Ballot(v.validator,
           v.suite == suite && v.height == height && v.prevHash == prevHash && v.round == round,
           cx.verify(v.suite, v.sig, TimeoutMessage(v.suite, height, prevHash, round, cx.setId(set_)), v.validator))
  }

  function VoteBallots(cx: Crypto, set_: ValidatorSet, suite: string, height: int, prevHash: string, round: int,
                       votes: seq<TimeoutVote>): seq<Ballot>
  {
    Mapped(v => VoteBallot(cx, set_, suite, height, prevHash, round, v), votes)
  }

  predicate AcceptsViewChange(cx: Crypto, set_: ValidatorSet, suite: string, height: int, prevHash: string, round: int,
                              cert: Option<ViewChangeCert>, num: int, den: int)
  {
    && 0 <= round <= MAX_SAFE
    && ValidThreshold(num, den)
    && cert.Some? && cert.value.round == round
    && TotalStake(set_.validators) > 0
    && |cert.value.votes| <= MaxVotes(set_)
    && WellFormed(set_.validators)
    && QuorumMet(CountFirst(set_.validators,
                            VoteBallots(cx, set_, suite, height, prevHash, round, cert.value.votes)).stake,
                 TotalStake(set_.validators), num, den)
  }

  method VerifyViewChangeCert(cx: Crypto, set_: ValidatorSet, suite: string, height: int, prevHash: string, round: int,
                              cert: Option<ViewChangeCert>, num: int, den: int) returns (ok: bool)
    ensures ok == AcceptsViewChange(cx, set_, suite, height, prevHash, round, cert, num, den)
  {
    if !(0 <= round <= MAX_SAFE) || !ValidThreshold(num, den) { return false; }
    if cert.None? || cert.value.round != round { return false; }
    var total := TotalStake(set_.validators);
    var votes := cert.value.votes;
    if total <= 0 || |votes| > MaxVotes(set_) { return false; }
    var stakeBy := StakeIndex(set_.validators);
    var counted, attempted, stake := {}, {}, 0;
    ghost var ballots := VoteBallots(cx, set_, suite, height, prevHash, round, votes);
    for i := 0 to |votes|
      invariant Tally(counted, attempted, stake) == CountFirst(set_.validators, ballots[..i])
    {
      assert ballots[..i + 1][..i] == ballots[..i];
      var v := votes[i];
      if v.suite != suite || v.height != height || v.prevHash != prevHash || v.round != round { continue; }
      if v.validator in counted { continue; }
      var s := if v.validator in stakeBy then stakeBy[v.validator] else 0;
      if s <= 0 || v.validator in attempted { continue; }
      attempted := attempted + {v.validator};
      if !cx.verify(v.suite, v.sig, TimeoutMessage(v.suite, height, prevHash, round, cx.setId(set_)),
                    v.validator) { continue; }
      counted := counted + {v.validator};
      stake := stake + s;
    }
    assert ballots[..|votes|] == ballots;
    ok := WellFormed(set_.validators) && QuorumMet(stake, total, num, den);
  }

  // --- light-client verification ---

  function AttBallot(cx: Crypto, set_: ValidatorSet, block: Block, opts: Options, a: Attestation): Ballot {
    var h := cx.blockHash(block.header);
    Ballot(a.validator,
           && a.blockHash == h && a.height == block.header.height && a.suite == block.suite
           && (opts.expectedSuite.Some? ==> a.suite == opts.expectedSuite.value),
           cx.verify(a.suite, a.sig, AttestMessage(a.suite, block.header.height, h, cx.setId(set_)), a.validator))
  }

  function AttBallots(cx: Crypto, set_: ValidatorSet, block: Block, opts: Options,
                      atts: seq<Attestation>): seq<Ballot> {
    Mapped(a => AttBallot(cx, set_, block, opts, a), atts)
  }

  /** Every validator of the set carries a key for the verifiable random function. */
  predicate VrfMode(set_: ValidatorSet) {
    |set_.validators| > 0 && forall i :: 0 <= i < |set_.validators| ==> set_.validators[i].vrfPubkey.Some?
  }

  function FindValidator(vs: seq<Validator>, key: string): Option<Validator> {
    if vs == [] then None else if vs[0].pubkey == key then Some(vs[0]) else FindValidator(vs[1..], key)
  }

  function VrfReasons(cx: Crypto, block: Block, proof: Bytes, set_: ValidatorSet, expectedPrev: string, num: int,
                      den: int): seq<Reason> {
    var h := block.header;
    When(h.round > 0 && !AcceptsViewChange(cx, set_, block.suite, h.height, expectedPrev, h.round - 1,
                                           block.viewChangeCert, num, den),
         NoViewChangeCert)
    + match FindValidator(set_.validators, h.proposer) {
        case None => [ProposerHasNoVrfKey]
        case Some(v) =>
          if v.vrfPubkey.None? then [ProposerHasNoVrfKey]
          else
            match cx.vrfVerify(v.vrfPubkey.value, expectedPrev, h.round, proof) {
              case None => [VrfProofInvalid]
              case Some(beta) =>
                if beta.hex != cx.toLowerCase(if h.vrfOutput.Some? then h.vrfOutput.value else "")
                    then [VrfOutputMismatch]
                else When(Sortition.Leader(set_.validators, beta.value) != Some(h.proposer), NotVrfEligible)
            }
      }
  }

  /** Why the proposer may not propose this block; the mode is fixed by the set. */
  function LeaderReasons(cx: Crypto, block: Block, set_: ValidatorSet, expectedPrev: string, num: int,
                         den: int): seq<Reason> {
    var h := block.header;
    if TotalStake(set_.validators) == 0 then [NoStake]
    else if VrfMode(set_) then
      match block.vrfProof
      case None => [LegacyBlockInVrfSet]
      case Some(proof) => VrfReasons(cx, block, proof, set_, expectedPrev, num, den)
    else if block.vrfProof.Some? then [VrfBlockInLegacySet]
    else
      When(h.round != 0, NonCanonicalRound)
      + When(Sortition.Leader(set_.validators, cx.draw(expectedPrev, h.round)) != Some(h.proposer), NotTheLeader)
  }

  /** The checks of a block that do not look at the attestations. */
  function HeaderReasons(cx: Crypto, block: Block, set_: ValidatorSet, expectedPrev: string, num: int, den: int,
                         opts: Options): seq<Reason> {
    var h := block.header;
    When(opts.expectedSuite.Some? && block.suite != opts.expectedSuite.value, WrongSuite)
    + When(opts.expectedHeight.Some? && h.height != opts.expectedHeight.value, WrongHeight)
    + When(h.prevHash != expectedPrev, WrongPrevHash)
    + When(!(0 <= h.round <= MAX_SAFE), BadRound)
    + LeaderReasons(cx, block, set_, expectedPrev, num, den)
    + When(!cx.verify(block.suite, block.proposerSig, BlockMessage(block.suite, cx.blockHash(h)), h.proposer),
           BadProposerSignature)
  }

  function FinalityReasons(stake: nat, set_: ValidatorSet, num: int, den: int): seq<Reason> {
    if !ValidThreshold(num, den) then [DegenerateThreshold]
    else if !WellFormed(set_.validators) then [MalformedSet]
    else When(!(TotalStake(set_.validators) > 0 && QuorumMet(stake, TotalStake(set_.validators), num, den)),
              BelowFinality)
  }

  /** The verdict on a block and its attestations. */
  function Appraise(cx: Crypto, block: Block, atts: seq<Attestation>, set_: ValidatorSet, expectedPrev: string,
                    num: int, den: int, opts: Options): Verdict
  {
    var total := TotalStake(set_.validators);
    if |atts| > MaxVotes(set_) then Verdict(false, false, 0, total, [TooManyAttestations])
    else
      var stake := CountFirst(set_.validators, AttBallots(cx, set_, block, opts, atts)).stake;
      var reasons := HeaderReasons(cx, block, set_, expectedPrev, num, den, opts)
          + FinalityReasons(stake, set_, num, den);
      var stakeMet := ValidThreshold(num, den) && WellFormed(set_.validators) && total > 0
          && QuorumMet(stake, total, num, den);
      Verdict(reasons == [], stakeMet && reasons == [], stake, total, reasons)
  }

  method VerifyFinalized(cx: Crypto, block: Block, atts: seq<Attestation>, set_: ValidatorSet, expectedPrev: string,
                         num: int, den: int, opts: Options) returns (v: Verdict)
    ensures v == Appraise(cx, block, atts, set_, expectedPrev, num, den, opts)
  {
    var total := TotalStake(set_.validators);
    if |atts| > MaxVotes(set_) { return Verdict(false, false, 0, total, [TooManyAttestations]); }
    var reasons := HeaderReasons(cx, block, set_, expectedPrev, num, den, opts);
    var h := cx.blockHash(block.header);
    var stakeBy := StakeIndex(set_.validators);
    var counted, attempted, attestingStake := {}, {}, 0;
    ghost var ballots := AttBallots(cx, set_, block, opts, atts);
    for i := 0 to |atts|
      invariant Tally(counted, attempted, attestingStake) == CountFirst(set_.validators, ballots[..i])
    {
      assert ballots[..i + 1][..i] == ballots[..i];
      var a := atts[i];
      if a.blockHash != h || a.height != block.header.height || a.suite != block.suite { continue; }
      if a.validator in counted { continue; }
      if opts.expectedSuite.Some? && a.suite != opts.expectedSuite.value { continue; }
      var stake := if a.validator in stakeBy then stakeBy[a.validator] else 0;
      if stake <= 0 || a.validator in attempted { continue; }
      attempted := attempted + {a.validator};
      if !cx.verify(a.suite, a.sig, AttestMessage(a.suite, block.header.height, h, cx.setId(set_)),
                    a.validator) { continue; }
      counted := counted + {a.validator};
      attestingStake := attestingStake + stake;
    }
    assert ballots[..|atts|] == ballots;
    var stakeMet := ValidThreshold(num, den) && WellFormed(set_.validators) && total > 0
        && QuorumMet(attestingStake, total, num, den);
    reasons := reasons + FinalityReasons(attestingStake, set_, num, den);
    v := Verdict(reasons == [], stakeMet && reasons == [], attestingStake, total, reasons);
  }

  // --- what finality means ---

  /** `a` is a valid attestation of the block with hash `hash` at `height`. */
  ghost predicate Attests(cx: Crypto, set_: ValidatorSet, a: Attestation, height: int, hash: string) {
    && a.height == height && a.blockHash == hash
    && cx.verify(a.suite, a.sig, AttestMessage(a.suite, height, hash, cx.setId(set_)), a.validator)
  }

  ghost predicate AttestedBy(cx: Crypto, set_: ValidatorSet, atts: seq<Attestation>, height: int, hash: string,
                             voter: string) {
    exists i :: 0 <= i < |atts| && atts[i].validator == voter && Attests(cx, set_, atts[i], height, hash)
  }

  /** No validator attests twice in the list. */
  ghost predicate DistinctVoters(atts: seq<Attestation>) {
    forall i, j :: 0 <= i < j < |atts| ==> atts[i].validator != atts[j].validator
  }

  /** Validators with at least `num / den` of all stake attested `hash` at `height`. */
  ghost predicate Quorum(cx: Crypto, set_: ValidatorSet, num: int, den: int, atts: seq<Attestation>, height: int,
                         hash: string, voters: set<string>) {
    && ValidThreshold(num, den) && WellFormed(set_.validators) && TotalStake(set_.validators) > 0
    && QuorumMet(Weight(set_.validators, voters), TotalStake(set_.validators), num, den)
    && forall v :: v in voters ==> StakeOf(set_.validators, v) > 0 && AttestedBy(cx, set_, atts, height, hash, v)
  }

  /** A finalized block has a quorum, passed every other check, and is `ok`. */
  lemma FinalizedHasQuorum(cx: Crypto, block: Block, atts: seq<Attestation>, set_: ValidatorSet, expectedPrev: string,
                           num: int, den: int, opts: Options) returns (voters: set<string>)
    requires Appraise(cx, block, atts, set_, expectedPrev, num, den, opts).finalized
    ensures Quorum(cx, set_, num, den, atts, block.header.height, cx.blockHash(block.header), voters)
    ensures voters == CountFirst(set_.validators, AttBallots(cx, set_, block, opts, atts)).counted
    ensures HeaderReasons(cx, block, set_, expectedPrev, num, den, opts) == []
    ensures block.header.prevHash == expectedPrev
    ensures opts.expectedHeight.Some? ==> block.header.height == opts.expectedHeight.value
    ensures opts.expectedSuite.Some? ==> block.suite == opts.expectedSuite.value
    ensures Appraise(cx, block, atts, set_, expectedPrev, num, den, opts).ok
  {
    var ballots := AttBallots(cx, set_, block, opts, atts);
    var t := CountFirst(set_.validators, ballots);
    CountFirstExact(set_.validators, ballots);
    voters := t.counted;
    forall v | v in voters
      ensures AttestedBy(cx, set_, atts, block.header.height, cx.blockHash(block.header), v)
    {
      var i :| FirstRelevantAt(ballots, v, i) && ballots[i].valid;
      assert Attests(cx, set_, atts[i], block.header.height, cx.blockHash(block.header));
    }
  }

  /** The attesting stake is at most that of the validators with some valid attestation, and all of it for one each. */
  lemma AttestingStakeBounds(cx: Crypto, block: Block, atts: seq<Attestation>, set_: ValidatorSet, expectedPrev: string,
                             num: int, den: int, opts: Options)
    requires |atts| <= MaxVotes(set_)
    ensures var v, ballots := Appraise(cx, block, atts, set_, expectedPrev, num, den, opts),
            AttBallots(cx, set_, block, opts, atts);
            var signers := CountAny(v => StakeOf(set_.validators, v) > 0, ballots);
            && v.attestingStake <= Weight(set_.validators, signers) <= v.totalStake
            && (AtMostOneEach(ballots) ==> v.attestingStake == Weight(set_.validators, signers))
            && (v.finalized ==> v.ok)
  {
    var ballots := AttBallots(cx, set_, block, opts, atts);
    FirstVersusAny(set_.validators, ballots);
    var signers := CountAny(v => StakeOf(set_.validators, v) > 0, ballots);
    WeightMonotone(set_.validators, signers, signers);
  }

  // --- the chain of one node ---

  class Chain {
    const cx: Crypto
    const set_: ValidatorSet
    const suite: string
    const num: int
    const den: int
    var blocks: seq<FinalizedBlock>

    constructor (cx: Crypto, set_: ValidatorSet, suite: string, num: int, den: int)
      ensures this.cx == cx && this.set_ == set_ && this.suite == suite && this.num == num && this.den == den
      ensures blocks == []
    {
      this.cx, this.set_, this.suite, this.num, this.den := cx, set_, suite, num, den;
      blocks := [];
    }

    /** Append the block if it extends the head and is final; otherwise refuse and change nothing. */
    method Submit(block: Block, atts: seq<Attestation>) returns (ok: bool)
      modifies this
      ensures blocks == Submitted(cx, set_, suite, num, den, old(blocks), block, atts)
      ensures ok <==> |blocks| == |old(blocks)| + 1
    {
      var v := VerifyFinalized(cx, block, atts, set_, HeadHash(blocks), num, den, Options(Some(|blocks|), Some(suite)));
      if !v.ok || !v.finalized { return false; }
      blocks := blocks + [FinalizedBlock(block, cx.blockHash(block.header), atts, v.attestingStake)];
      ok := true;
    }
  }

  function HeadHash(blocks: seq<FinalizedBlock>): string {
    if blocks == [] then GENESIS_PREV else blocks[|blocks| - 1].hash
  }

  function Submitted(cx: Crypto, set_: ValidatorSet, suite: string, num: int, den: int,
                     blocks: seq<FinalizedBlock>, block: Block, atts: seq<Attestation>): (r: seq<FinalizedBlock>)
    ensures || r == blocks
            || (&& |r| == |blocks| + 1 && r == blocks + [r[|blocks|]]
                && r[|blocks|].hash == cx.blockHash(block.header) && r[|blocks|].attestations == atts)
  {
    var v := Appraise(cx, block, atts, set_, HeadHash(blocks), num, den, Options(Some(|blocks|), Some(suite)));
    if v.ok && v.finalized then blocks + [FinalizedBlock(block, cx.blockHash(block.header), atts, v.attestingStake)]
    else blocks
  }

  ghost predicate HasQuorum(cx: Crypto, set_: ValidatorSet, num: int, den: int, fb: FinalizedBlock) {
    exists voters :: Quorum(cx, set_, num, den, fb.attestations, fb.block.header.height, fb.hash, voters)
  }

  /** Consecutive heights, linked hashes, and a quorum for every block. */
  ghost predicate Linked(cx: Crypto, set_: ValidatorSet, num: int, den: int, blocks: seq<FinalizedBlock>) {
    forall i :: 0 <= i < |blocks| ==> LinkedAt(cx, set_, num, den, blocks[..i], blocks[i])
  }

  ghost predicate LinkedAt(cx: Crypto, set_: ValidatorSet, num: int, den: int, before: seq<FinalizedBlock>,
                           fb: FinalizedBlock) {
    && fb.block.header.height == |before|
    && fb.block.header.prevHash == HeadHash(before)
    && fb.hash == cx.blockHash(fb.block.header)
    && HasQuorum(cx, set_, num, den, fb)
  }

  lemma SubmittedLinked(cx: Crypto, set_: ValidatorSet, suite: string, num: int, den: int,
                        blocks: seq<FinalizedBlock>, block: Block, atts: seq<Attestation>)
    requires Linked(cx, set_, num, den, blocks)
    ensures Linked(cx, set_, num, den, Submitted(cx, set_, suite, num, den, blocks, block, atts))
  {
    var r := Submitted(cx, set_, suite, num, den, blocks, block, atts);
    if r != blocks {
      var fb := r[|blocks|];
      assert LinkedAt(cx, set_, num, den, blocks, fb) by {
        var voters := FinalizedHasQuorum(cx, block, atts, set_, HeadHash(blocks), num, den,
                                         Options(Some(|blocks|), Some(suite)));
        assert Quorum(cx, set_, num, den, fb.attestations, fb.block.header.height, fb.hash, voters);
      }
      LinkedAppend(cx, set_, num, den, blocks, fb);
    }
  }

  lemma LinkedAppend(cx: Crypto, set_: ValidatorSet, num: int, den: int, blocks: seq<FinalizedBlock>,
                     fb: FinalizedBlock)
    requires Linked(cx, set_, num, den, blocks) && LinkedAt(cx, set_, num, den, blocks, fb)
    ensures Linked(cx, set_, num, den, blocks + [fb])
  {
    hide LinkedAt;
    var r := blocks + [fb];
    forall i | 0 <= i < |r|
      ensures LinkedAt(cx, set_, num, den, r[..i], r[i])
    {
      if i < |blocks| { assert r[..i] == blocks[..i]; } else { assert r[..i] == blocks; }
    }
  }
}
