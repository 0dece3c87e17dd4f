/** Accountable safety: evidence of double-signing, and slashing. */
module Equivocations {
  import opened ByteStrings
  import opened Collections
  import opened Stake
  import opened Counting
  import opened Ledger
  import Sortition

  const MAX_ATTESTATIONS_PER_SIDE: nat := 4096
  const MAX_PROOFS_PER_SLASH: nat := 4096

  datatype Proof = Proof(validator: string, height: int, blockHashA: string, blockHashB: string, attA: Attestation,
                         attB: Attestation)

  // --- detection ---

  /** The last attestation of `hash` by `v`. */
  function LastFor(atts: seq<Attestation>, hash: string, v: string): Option<Attestation> {
    if atts == [] then None
    else
      var a := atts[|atts| - 1];
      if a.blockHash == hash && a.validator == v then Some(a) else LastFor(atts[..|atts| - 1], hash, v)
  }

  /** The first attestation of `hash` by `v`. */
  function FirstFor(atts: seq<Attestation>, hash: string, v: string): Option<Attestation> {
    if atts == [] then None
    else
      match FirstFor(atts[..|atts| - 1], hash, v)
      case Some(a) => Some(a)
      case None =>
        var a := atts[|atts| - 1];
        if a.blockHash == hash && a.validator == v then Some(a) else None
  }

  predicate Comparable(cx: Crypto, blockA: Block, attsA: seq<Attestation>, blockB: Block, attsB: seq<Attestation>) {
    && |attsA| <= MAX_ATTESTATIONS_PER_SIDE && |attsB| <= MAX_ATTESTATIONS_PER_SIDE
    && blockA.header.height == blockB.header.height
    && cx.blockHash(blockA.header) != cx.blockHash(blockB.header)
  }

  /** `p` pairs the last attestation of one block with the first of the other. */
  ghost predicate PairsUp(p: Proof, height: int, hA: string, attsA: seq<Attestation>, hB: string,
                          attsB: seq<Attestation>) {
    && p.height == height && p.blockHashA == hA && p.blockHashB == hB
    && LastFor(attsA, hA, p.validator) == Some(p.attA)
    && FirstFor(attsB, hB, p.validator) == Some(p.attB)
  }

  ghost predicate Accused(out: seq<Proof>, v: string) {
    exists k :: 0 <= k < |out| && out[k].validator == v
  }

  /** One proof for each validator with attestations of both blocks, and no other proof. */
  ghost predicate Detected(cx: Crypto, blockA: Block, attsA: seq<Attestation>, blockB: Block, attsB: seq<Attestation>,
                           out: seq<Proof>) {
    var hA, hB := cx.blockHash(blockA.header), cx.blockHash(blockB.header);
    if !Comparable(cx, blockA, attsA, blockB, attsB) then out == []
    else
      && (forall k :: 0 <= k < |out| ==> PairsUp(out[k], blockA.header.height, hA, attsA, hB, attsB))
      && (forall v :: Accused(out, v) <==> LastFor(attsA, hA, v).Some? && FirstFor(attsB, hB, v).Some?)
      && |out| <= |attsB|
  }

  /** The last attestation of `hash` by each validator. */
  method LastByValidator(atts: seq<Attestation>, hash: string) returns (last: map<string, Attestation>)
    ensures forall v :: LastFor(atts, hash, v) == if v in last then Some(last[v]) else None
  {
    last := map[];
    for i := 0 to |atts|
      invariant forall v :: LastFor(atts[..i], hash, v) == if v in last then Some(last[v]) else None
    {
      assert atts[..i + 1][..i] == atts[..i];
      if atts[i].blockHash == hash { last := last[atts[i].validator := atts[i]]; }
    }
    assert atts[..|atts|] == atts;
  }

  method DetectEquivocations(cx: Crypto, blockA: Block, attsA: seq<Attestation>, blockB: Block, attsB: seq<Attestation>)
    returns (out: seq<Proof>)
    ensures Detected(cx, blockA, attsA, blockB, attsB, out)
  {
    out := [];
    if |attsA| > MAX_ATTESTATIONS_PER_SIDE || |attsB| > MAX_ATTESTATIONS_PER_SIDE { return; }
    if blockA.header.height != blockB.header.height { return; }
    var hA, hB := cx.blockHash(blockA.header), cx.blockHash(blockB.header);
    if hA == hB { return; }
    hide LastFor;
    var byValidatorA := LastByValidator(attsA, hA);
    var seen: set<string> := {};
    for i := 0 to |attsB|
      invariant |out| <= i
      invariant forall k :: 0 <= k < |out| ==> PairsUp(out[k], blockA.header.height, hA, attsA, hB, attsB[..i])
      invariant forall v :: v in seen <==> Accused(out, v)
      invariant forall v :: v in seen <==> v in byValidatorA && FirstFor(attsB[..i], hB, v).Some?
    {
      assert attsB[..i + 1][..i] == attsB[..i];
      var b := attsB[i];
      if b.blockHash != hB || b.validator in seen { continue; }
      if b.validator in byValidatorA {
        seen := seen + {b.validator};
        var p := Proof(b.validator, blockA.header.height, hA, hB, byValidatorA[b.validator], b);
        AccuseMore(out, p);
        out := out + [p];
      }
    }
    assert attsB[..|attsB|] == attsB;
  }

  lemma AccuseMore(out: seq<Proof>, p: Proof)
    ensures forall v :: Accused(out + [p], v) <==> Accused(out, v) || v == p.validator
  {
    forall v
      ensures Accused(out + [p], v) <==> Accused(out, v) || v == p.validator
    {
      if Accused(out, v) {
        var k :| 0 <= k < |out| && out[k].validator == v;
        assert (out + [p])[k].validator == v;
      }
      if v == p.validator { assert (out + [p])[|out|].validator == v; }
      if Accused(out + [p], v) {
        var k :| 0 <= k < |out| + 1 && (out + [p])[k].validator == v;
        if k < |out| { assert out[k].validator == v; }
      }
    }
  }

  // --- verification and slashing ---

  /** `decodable` says which keys the strict hex decoder of this check accepts. */
  predicate VerifyAttestation(cx: Crypto, decodable: string -> bool, a: Attestation, setId: string) {
    decodable(a.validator) && cx.verify(a.suite, a.sig, AttestMessage(a.suite, a.height, a.blockHash, setId),
                                        a.validator)
  }

  predicate VerifyProof(cx: Crypto, decodable: string -> bool, p: Proof, set_: ValidatorSet) {
    && p.blockHashA != p.blockHashB
    && p.attA.validator == p.validator && p.attB.validator == p.validator
    && p.attA.blockHash == p.blockHashA && p.attB.blockHash == p.blockHashB
    && p.attA.height == p.attB.height && p.height == p.attA.height
    && StakeOf(set_.validators, p.validator) > 0
    && VerifyAttestation(cx, decodable, p.attA, cx.setId(set_))
        && VerifyAttestation(cx, decodable, p.attB, cx.setId(set_))
  }

  function Without(vs: seq<Validator>, keys: set<string>): seq<Validator> {
    if vs == [] then []
    else (if vs[0].pubkey in keys then [] else [vs[0]]) + Without(vs[1..], keys)
  }

  ghost predicate Proven(cx: Crypto, decodable: string -> bool, set_: ValidatorSet, proofs: seq<Proof>, v: string) {
    exists k :: 0 <= k < |proofs| && proofs[k].validator == v && VerifyProof(cx, decodable, proofs[k], set_)
  }

  /** The set without exactly the validators that a valid proof of the batch names; over the cap nothing changes. */
  method Slash(cx: Crypto, decodable: string -> bool, set_: ValidatorSet, proofs: seq<Proof>)
    returns (newSet: ValidatorSet, slashed: seq<string>, rejected: seq<Proof>, accepted: set<string>)
    ensures |proofs| > MAX_PROOFS_PER_SLASH ==> accepted == {} && slashed == [] && rejected == []
    ensures |proofs| <= MAX_PROOFS_PER_SLASH ==> forall v :: v in accepted <==> Proven(cx, decodable, set_, proofs, v)
    ensures |proofs| <= MAX_PROOFS_PER_SLASH ==> |slashed| + |rejected| == |proofs|
    ensures multiset(slashed) == multiset(accepted)
    ensures newSet == set_.(validators := Without(set_.validators, accepted))
  {
    slashed, rejected, accepted := [], [], {};
    if |proofs| > MAX_PROOFS_PER_SLASH {
      WithoutNone(set_.validators);
      return set_, slashed, rejected, accepted;
    }
    for i := 0 to |proofs|
      invariant |slashed| + |rejected| == i
      invariant multiset(slashed) == multiset(accepted)
      invariant forall v :: v in accepted <==>
                exists k :: 0 <= k < i && proofs[k].validator == v && VerifyProof(cx, decodable, proofs[k], set_)
    {
      var p := proofs[i];
      if p.validator in accepted || !VerifyProof(cx, decodable, p, set_) {
        rejected := rejected + [p];
      } else {
        accepted := accepted + {p.validator};
        slashed := slashed + [p.validator];
      }
    }
    newSet := set_.(validators := Without(set_.validators, accepted));
  }

  lemma {:induction false} WithoutNone(vs: seq<Validator>)
    ensures Without(vs, {}) == vs
  {
    if vs == [] {
    } else {
      WithoutNone(vs[1..]);
      assert vs == [vs[0]] + vs[1..];
    }
  }

  /** Removing keys removes their stake. */
  lemma {:induction false} WithoutStake(vs: seq<Validator>, keys: set<string>)
    requires WellFormed(vs)
    ensures TotalStake(Without(vs, keys)) == TotalStake(vs) - Weight(vs, keys)
  {
    if vs == [] {
    } else {
      var k := vs[0].pubkey;
      WithoutStake(vs[1..], keys);
      WeightLess(vs[1..], keys, k);
      if k in keys {
        assert Without(vs, keys) == Without(vs[1..], keys);
      } else {
        assert Without(vs, keys)[1..] == Without(vs[1..], keys);
      }
    }
  }

  lemma {:induction false} WeightLess(vs: seq<Validator>, keys: set<string>, key: string)
    requires forall i :: 0 <= i < |vs| ==> vs[i].pubkey != key
    ensures Weight(vs, keys - {key}) == Weight(vs, keys)
  {
    if vs == [] {
    } else {
      assert (keys - {key}) - {vs[0].pubkey} == (keys - {vs[0].pubkey}) - {key};
      WeightLess(vs[1..], keys - {vs[0].pubkey}, key);
    }
  }

  // --- who is slashed ---

  /** A validator's last attestation of one block and first of the other both verify at one height. */
  ghost predicate Caught(cx: Crypto, decodable: string -> bool, set_: ValidatorSet, height: int,
                         hA: string, attsA: seq<Attestation>, hB: string, attsB: seq<Attestation>, v: string)
  {
    var a, b := LastFor(attsA, hA, v), FirstFor(attsB, hB, v);
    && a.Some? && b.Some? && StakeOf(set_.validators, v) > 0 && decodable(v)
    && Attests(cx, set_, a.value, height, hA) && Attests(cx, set_, b.value, height, hB)
  }

  lemma {:induction false} LastForIs(atts: seq<Attestation>, hash: string, v: string)
    ensures var a := LastFor(atts, hash, v);
            a.Some? ==> a.value in atts && a.value.blockHash == hash && a.value.validator == v
    decreases |atts|
  {
    if atts == [] {
    } else {
      LastForIs(atts[..|atts| - 1], hash, v);
    }
  }

  lemma {:induction false} FirstForIs(atts: seq<Attestation>, hash: string, v: string)
    ensures var a := FirstFor(atts, hash, v);
            a.Some? ==> a.value in atts && a.value.blockHash == hash && a.value.validator == v
    decreases |atts|
  {
    if atts == [] {
    } else {
      FirstForIs(atts[..|atts| - 1], hash, v);
    }
  }

  /** Exactly the caught validators are proven by the detected proofs. */
  lemma DetectedProvesCaught(cx: Crypto, decodable: string -> bool, set_: ValidatorSet, blockA: Block,
                             attsA: seq<Attestation>,
                             blockB: Block, attsB: seq<Attestation>, out: seq<Proof>, v: string)
    requires Comparable(cx, blockA, attsA, blockB, attsB) && Detected(cx, blockA, attsA, blockB, attsB, out)
    ensures Proven(cx, decodable, set_, out, v) <==>
            Caught(cx, decodable, set_, blockA.header.height, cx.blockHash(blockA.header), attsA,
                   cx.blockHash(blockB.header), attsB, v)
  {
    var height, hA, hB := blockA.header.height, cx.blockHash(blockA.header), cx.blockHash(blockB.header);
    LastForIs(attsA, hA, v);
    FirstForIs(attsB, hB, v);
    if Caught(cx, decodable, set_, height, hA, attsA, hB, attsB, v) {
      assert Accused(out, v);
      var k :| 0 <= k < |out| && out[k].validator == v;
      assert PairsUp(out[k], height, hA, attsA, hB, attsB);
      assert VerifyProof(cx, decodable, out[k], set_);
    }
  }

  // --- one attestation of each validator on each side ---

  lemma {:induction false} OneEachFound(atts: seq<Attestation>, i: nat)
    requires DistinctVoters(atts) && i < |atts|
    ensures LastFor(atts, atts[i].blockHash, atts[i].validator) == Some(atts[i])
    ensures FirstFor(atts, atts[i].blockHash, atts[i].validator) == Some(atts[i])
    decreases |atts|
  {
    var n := |atts| - 1;
    var before := atts[..n];
    if i < n {
      assert before[i] == atts[i];
      OneEachFound(before, i);
    } else {
      FirstForIs(before, atts[i].blockHash, atts[i].validator);
    }
  }

  /** With one attestation each, a voter of both quorums is caught. */
  lemma VoterOfBothCaught(cx: Crypto, decodable: string -> bool, set_: ValidatorSet, height: int,
                          hA: string, attsA: seq<Attestation>, hB: string, attsB: seq<Attestation>, v: string)
    requires DistinctVoters(attsA) && DistinctVoters(attsB) && decodable(v) && StakeOf(set_.validators, v) > 0
    requires AttestedBy(cx, set_, attsA, height, hA, v) && AttestedBy(cx, set_, attsB, height, hB, v)
    ensures Caught(cx, decodable, set_, height, hA, attsA, hB, attsB, v)
  {
    var i :| 0 <= i < |attsA| && attsA[i].validator == v && Attests(cx, set_, attsA[i], height, hA);
    var j :| 0 <= j < |attsB| && attsB[j].validator == v && Attests(cx, set_, attsB[j], height, hB);
    OneEachFound(attsA, i);
    OneEachFound(attsB, j);
  }

  /** Every key of the set passes the strict hex decoder. */
  ghost predicate AllDecodable(decodable: string -> bool, vs: seq<Validator>) {
    forall i :: 0 <= i < |vs| ==> decodable(vs[i].pubkey)
  }

  /** Two quorums for different blocks at one height expose at least `(2 num - den) / den` of all stake. */
  lemma QuorumsExposed(cx: Crypto, decodable: string -> bool, set_: ValidatorSet, num: int, den: int,
                       blockA: Block, attsA: seq<Attestation>, votersA: set<string>,
                       blockB: Block, attsB: seq<Attestation>, votersB: set<string>, out: seq<Proof>,
                       accepted: set<string>)
    requires Quorum(cx, set_, num, den, attsA, blockA.header.height, cx.blockHash(blockA.header), votersA)
    requires Quorum(cx, set_, num, den, attsB, blockB.header.height, cx.blockHash(blockB.header), votersB)
    requires Comparable(cx, blockA, attsA, blockB, attsB) && DistinctVoters(attsA) && DistinctVoters(attsB)
    requires AllDecodable(decodable, set_.validators)
    requires Detected(cx, blockA, attsA, blockB, attsB, out)
    requires forall v :: v in accepted <==> Proven(cx, decodable, set_, out, v)
    ensures Weight(set_.validators, accepted) * den >= (2 * num - den) * TotalStake(set_.validators)
  {
    var vs := set_.validators;
    var height, hA, hB := blockA.header.height, cx.blockHash(blockA.header), cx.blockHash(blockB.header);
    forall v | v in votersA * votersB
      ensures v in accepted
    {
      var i := StakedIsMember(vs, v);
      VoterOfBothCaught(cx, decodable, set_, height, hA, attsA, hB, attsB, v);
      DetectedProvesCaught(cx, decodable, set_, blockA, attsA, blockB, attsB, out, v);
    }
    WeightIntersection(vs, votersA, votersB);
    WeightMonotone(vs, votersA * votersB, accepted);
    QuorumsOverlap(Weight(vs, votersA), Weight(vs, votersB), Weight(vs, accepted), TotalStake(vs), num, den);
  }

  /**
   Two different blocks finalized at one height expose enough stake: slashing what is detected removes
   at least `(2 num - den) / den` of it, a third for two thirds.
   */
  lemma AccountableSafety(cx: Crypto, decodable: string -> bool, set_: ValidatorSet, num: int, den: int,
                          blockA: Block, attsA: seq<Attestation>, prevA: string, optsA: Options,
                          blockB: Block, attsB: seq<Attestation>, prevB: string, optsB: Options,
                          out: seq<Proof>, accepted: set<string>)
    requires Appraise(cx, blockA, attsA, set_, prevA, num, den, optsA).finalized
    requires Appraise(cx, blockB, attsB, set_, prevB, num, den, optsB).finalized
    requires Comparable(cx, blockA, attsA, blockB, attsB) && DistinctVoters(attsA) && DistinctVoters(attsB)
    requires AllDecodable(decodable, set_.validators)
    requires Detected(cx, blockA, attsA, blockB, attsB, out)
    requires forall v :: v in accepted <==> Proven(cx, decodable, set_, out, v)
    ensures |out| <= MAX_PROOFS_PER_SLASH
    ensures Weight(set_.validators, accepted) * den >= (2 * num - den) * TotalStake(set_.validators)
    ensures TotalStake(Without(set_.validators, accepted))
            == TotalStake(set_.validators) - Weight(set_.validators, accepted)
  {
    var votersA := FinalizedHasQuorum(cx, blockA, attsA, set_, prevA, num, den, optsA);
    var votersB := FinalizedHasQuorum(cx, blockB, attsB, set_, prevB, num, den, optsB);
    QuorumsExposed(cx, decodable, set_, num, den, blockA, attsA, votersA, blockB, attsB, votersB, out, accepted);
    WithoutStake(set_.validators, accepted);
  }

  lemma QuorumsOverlap(a: nat, b: nat, common: nat, total: nat, num: int, den: int)
    requires den >= 1 && a * den >= num * total && b * den >= num * total
    requires common >= a + b - total
    ensures common * den >= (2 * num - den) * total
  {
    assert common * den >= (a + b - total) * den == a * den + b * den - total * den;
  }

  /** A validator that never signs two hashes for one height is never slashed, whatever the proofs. */
  lemma HonestNeverSlashed(cx: Crypto, decodable: string -> bool, set_: ValidatorSet, proofs: seq<Proof>, v: string)
    requires forall a: Attestation, b: Attestation ::
               a.validator == v && b.validator == v && a.height == b.height
               && Attests(cx, set_, a, a.height, a.blockHash) && Attests(cx, set_, b, b.height, b.blockHash)
               ==> a.blockHash == b.blockHash
    ensures !Proven(cx, decodable, set_, proofs, v)
  {
    if Proven(cx, decodable, set_, proofs, v) {
      var k :| 0 <= k < |proofs| && proofs[k].validator == v && VerifyProof(cx, decodable, proofs[k], set_);
      var a, b := proofs[k].attA, proofs[k].attB;
      assert Attests(cx, set_, a, a.height, a.blockHash) && Attests(cx, set_, b, b.height, b.blockHash);
      assert false;
    }
  }

  /**
   With one attestation of each validator, exactly the staked voters of both blocks with a decodable key are
   convicted.
   */
  lemma DistinctConvicted(cx: Crypto, decodable: string -> bool, set_: ValidatorSet, blockA: Block,
                          attsA: seq<Attestation>, blockB: Block, attsB: seq<Attestation>, out: seq<Proof>, v: string)
    requires Comparable(cx, blockA, attsA, blockB, attsB) && DistinctVoters(attsA) && DistinctVoters(attsB)
    requires Detected(cx, blockA, attsA, blockB, attsB, out)
    ensures Proven(cx, decodable, set_, out, v) <==>
            && StakeOf(set_.validators, v) > 0 && decodable(v)
            && AttestedBy(cx, set_, attsA, blockA.header.height, cx.blockHash(blockA.header), v)
            && AttestedBy(cx, set_, attsB, blockA.header.height, cx.blockHash(blockB.header), v)
  {
    hide Detected, Proven, DistinctVoters, LastFor, FirstFor;
    var height, hA, hB := blockA.header.height, cx.blockHash(blockA.header), cx.blockHash(blockB.header);
    DetectedProvesCaught(cx, decodable, set_, blockA, attsA, blockB, attsB, out, v);
    if Caught(cx, decodable, set_, height, hA, attsA, hB, attsB, v) {
      LastForIs(attsA, hA, v);
      FirstForIs(attsB, hB, v);
    } else if && StakeOf(set_.validators, v) > 0 && decodable(v)
              && AttestedBy(cx, set_, attsA, height, hA, v) && AttestedBy(cx, set_, attsB, height, hB, v) {
      VoterOfBothCaught(cx, decodable, set_, height, hA, attsA, hB, attsB, v);
    }
  }

  // --- how evidence is lost ---

  /** An attestation that says the same for the next height; no count of the block looks at it. */
  function Stale(block: Block, a: Attestation): Attestation {
    a.(height := block.header.height + 1)
  }

  /** The list with such an attestation behind it for every one of it. */
  function Blurred(block: Block, atts: seq<Attestation>): seq<Attestation> {
    atts + Mapped(a => Stale(block, a), atts)
  }

  lemma {:induction false} IrrelevantBehind(vs: seq<Validator>, ballots: seq<Ballot>, more: seq<Ballot>)
    requires forall i :: 0 <= i < |more| ==> !more[i].relevant
    ensures CountFirst(vs, ballots + more) == CountFirst(vs, ballots)
    decreases |more|
  {
    if more == [] {
      assert ballots + more == ballots;
    } else {
      var n := |more| - 1;
      IrrelevantBehind(vs, ballots, more[..n]);
      assert (ballots + more)[..|ballots| + n] == ballots + more[..n];
    }
  }

  /** Whatever the verdict on a block, it stays the same. */
  lemma BlurredAppraised(cx: Crypto, block: Block, atts: seq<Attestation>, set_: ValidatorSet, prev: string,
                         num: int, den: int, opts: Options)
    requires 2 * |atts| <= MaxVotes(set_)
    ensures Appraise(cx, block, Blurred(block, atts), set_, prev, num, den, opts)
            == Appraise(cx, block, atts, set_, prev, num, den, opts)
  {
    hide CountFirst, HeaderReasons, FinalityReasons;
    var stale := Mapped(a => Stale(block, a), atts);
    var ballots, more := AttBallots(cx, set_, block, opts, atts), AttBallots(cx, set_, block, opts, stale);
    assert AttBallots(cx, set_, block, opts, Blurred(block, atts)) == ballots + more;
    IrrelevantBehind(set_.validators, ballots, more);
  }

  lemma {:induction false} LastOfTwo(xs: seq<Attestation>, ys: seq<Attestation>, hash: string, v: string)
    ensures LastFor(xs + ys, hash, v) == if LastFor(ys, hash, v).Some? then LastFor(ys, hash, v)
            else LastFor(xs, hash, v)
    decreases |ys|
  {
    if ys == [] {
      assert xs + ys == xs;
    } else {
      var n := |ys| - 1;
      LastOfTwo(xs, ys[..n], hash, v);
      assert (xs + ys)[..|xs| + n] == xs + ys[..n];
    }
  }

  lemma {:induction false} LastStale(block: Block, atts: seq<Attestation>, hash: string, v: string)
    ensures LastFor(Mapped(a => Stale(block, a), atts), hash, v)
            == match LastFor(atts, hash, v) case None => None case Some(a) => Some(Stale(block, a))
    decreases |atts|
  {
    if atts == [] {
    } else {
      var n := |atts| - 1;
      LastStale(block, atts[..n], hash, v);
      assert Mapped(a => Stale(block, a), atts)[..n] == Mapped(a => Stale(block, a), atts[..n]);
    }
  }

  /**
   Without one attestation each all evidence can be lost: with stale repetitions behind the attestations of one block
   its verdict stays the same, and detection against any other block convicts nobody.
   */
  lemma RepeatedAttestationHides(cx: Crypto, decodable: string -> bool, set_: ValidatorSet, num: int, den: int,
                                 blockA: Block, attsA: seq<Attestation>, prev: string, opts: Options,
                                 blockB: Block, attsB: seq<Attestation>, out: seq<Proof>, v: string)
    requires 2 * |attsA| <= MaxVotes(set_)
    requires Detected(cx, blockA, Blurred(blockA, attsA), blockB, attsB, out)
    ensures Appraise(cx, blockA, Blurred(blockA, attsA), set_, prev, num, den, opts)
            == Appraise(cx, blockA, attsA, set_, prev, num, den, opts)
    ensures !Proven(cx, decodable, set_, out, v)
  {
    hide Appraise, MaxVotes;
    BlurredAppraised(cx, blockA, attsA, set_, prev, num, den, opts);
    if Comparable(cx, blockA, Blurred(blockA, attsA), blockB, attsB) {
      var hA := cx.blockHash(blockA.header);
      LastOfTwo(attsA, Mapped(a => Stale(blockA, a), attsA), hA, v);
      LastStale(blockA, attsA, hA, v);
      DetectedProvesCaught(cx, decodable, set_, blockA, Blurred(blockA, attsA), blockB, attsB, out, v);
    }
  }

  /** No proof convicts a validator whose key the strict decoder refuses. */
  lemma UndecodableEscapes(cx: Crypto, decodable: string -> bool, set_: ValidatorSet, proofs: seq<Proof>, v: string)
    ensures Proven(cx, decodable, set_, proofs, v) ==> decodable(v)
  {
  }

  // --- such a conflict exists ---

  /** A set with one validator. */
  const SOLE: ValidatorSet := ValidatorSet([Validator("v", 1, None)], 0)

  /** Signatures that always verify, and headers that are told apart by their payload. */
  const LAX: Crypto := Crypto(
    (header: Header) => header.payloadRoot, set_ => "", (suite, sig, m, key) => true, (prev, round) => 0,
    (key, prev, round, proof) => None, s => s)

  function SoleBlock(root: string): Block {
    Block(Header(0, GENESIS_PREV, 0, "v", root, 0, None), [], "s", None, None)
  }

  function SoleAttestation(root: string): Attestation {
    Attestation(root, 0, "v", "s", [])
  }

  lemma SoleLeads()
    ensures Sortition.Leader(SOLE.validators, 0) == Some("v")
  {
    var vs := SOLE.validators;
    assert vs[1..] == [] && TotalStake(vs) == 1;
    assert Sortition.SortByKey(vs) == vs;
  }

  lemma SoleFinal(root: string, num: int, den: int, opts: Options)
    requires ValidThreshold(num, den)
    requires opts.expectedHeight in {None, Some(0)} && opts.expectedSuite in {None, Some("s")}
    ensures var v := Appraise(LAX, SoleBlock(root), [SoleAttestation(root)], SOLE, GENESIS_PREV, num, den, opts);
            v.finalized && v.ok
  {
    var vs, block := SOLE.validators, SoleBlock(root);
    assert vs[1..] == [] && TotalStake(vs) == 1 && StakeOf(vs, "v") == 1;
    SoleLeads();
    assert !VrfMode(SOLE) by { assert vs[0].vrfPubkey.None?; }
    assert HeaderReasons(LAX, block, SOLE, GENESIS_PREV, num, den, opts) == [];
    var ballots := AttBallots(LAX, SOLE, block, opts, [SoleAttestation(root)]);
    assert ballots == [Ballot("v", true, true)] && ballots[..0] == [];
    assert CountFirst(vs, ballots).stake == 1;
  }

  /** The verdict on a block of the sole validator. */
  function SoleVerdict(root: string, atts: seq<Attestation>, num: int, den: int): Verdict {
    Appraise(LAX, SoleBlock(root), atts, SOLE, GENESIS_PREV, num, den, Options(None, None))
  }

  /** A sole validator that signs two blocks finalizes both: the hypotheses of accountable safety can be met. */
  lemma DoubleSignerFinalizesBoth(num: int, den: int)
    requires ValidThreshold(num, den)
    ensures SoleVerdict("a", [SoleAttestation("a")], num, den).finalized
    ensures SoleVerdict("b", [SoleAttestation("b")], num, den).finalized
    ensures Comparable(LAX, SoleBlock("a"), [SoleAttestation("a")], SoleBlock("b"), [SoleAttestation("b")])
    ensures DistinctVoters([SoleAttestation("a")]) && DistinctVoters([SoleAttestation("b")])
  {
    SoleFinal("a", num, den, Options(None, None));
    SoleFinal("b", num, den, Options(None, None));
    assert "a"[0] != "b"[0];
  }

  /** Two blocks are final at one height and nobody is convicted: one list repeats its attestations. */
  lemma ForkHiddenByRepeats(num: int, den: int, decodable: string -> bool, out: seq<Proof>, v: string)
    requires ValidThreshold(num, den)
    requires Detected(LAX, SoleBlock("a"), Blurred(SoleBlock("a"), [SoleAttestation("a")]), SoleBlock("b"),
                      [SoleAttestation("b")], out)
    ensures SoleVerdict("a", Blurred(SoleBlock("a"), [SoleAttestation("a")]), num, den).finalized
    ensures SoleVerdict("b", [SoleAttestation("b")], num, den).finalized
    ensures Comparable(LAX, SoleBlock("a"), Blurred(SoleBlock("a"), [SoleAttestation("a")]), SoleBlock("b"),
                       [SoleAttestation("b")])
    ensures !Proven(LAX, decodable, SOLE, out, v)
  {
    hide Appraise, Detected, Proven;
    DoubleSignerFinalizesBoth(num, den);
    RepeatedAttestationHides(LAX, decodable, SOLE, num, den, SoleBlock("a"), [SoleAttestation("a")], GENESIS_PREV,
                             Options(None, None), SoleBlock("b"), [SoleAttestation("b")], out, v);
  }

  /** Two blocks are final at one height, with one attestation each, and nobody is convicted: no key is decodable. */
  lemma ForkHiddenByKeys(num: int, den: int, out: seq<Proof>, v: string)
    requires ValidThreshold(num, den)
    requires Detected(LAX, SoleBlock("a"), [SoleAttestation("a")], SoleBlock("b"), [SoleAttestation("b")], out)
    ensures SoleVerdict("a", [SoleAttestation("a")], num, den).finalized
    ensures SoleVerdict("b", [SoleAttestation("b")], num, den).finalized
    ensures Comparable(LAX, SoleBlock("a"), [SoleAttestation("a")], SoleBlock("b"), [SoleAttestation("b")])
    ensures DistinctVoters([SoleAttestation("a")]) && DistinctVoters([SoleAttestation("b")])
    ensures !Proven(LAX, key => false, SOLE, out, v)
  {
    hide Appraise, Detected;
    DoubleSignerFinalizesBoth(num, den);
    UndecodableEscapes(LAX, key => false, SOLE, out, v);
  }
}
