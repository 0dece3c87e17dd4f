/** Proofs that a committed amount keeps within a ceiling and an aggregate cap. */
module PolicyProof {
  import opened ByteStrings
  import opened Bits
  import opened Scalars
  import opened ZkRange

  datatype Bounds = Bounds(ceiling: int, aggregate: Option<int>, cap: Option<int>, n: int := 32)

  datatype Proof = Proof(n: int, ceiling: RangeProof, aggregate: Option<RangeProof>)

  predicate Capped(b: Bounds) {
    b.aggregate.Some? && b.cap.Some?
  }

  /** The random tapes of the four sub-proofs. */
  datatype Tapes = Tapes(amount: Coins, diff: Coins, sum: Coins, sumDiff: Coins)

  predicate Accepts(o: Oracle, commitment: Pt, b: Bounds, p: Proof) {
    && p.n == b.n
    && (b.cap.Some? ==> b.aggregate.Some?)
    && AcceptsBelow(o, commitment, b.ceiling + 1, p.ceiling, b.n)
    && (if Capped(b)
        then p.aggregate.Some? && AcceptsBelow(o, ShiftCommitment(commitment, b.aggregate.value), b.cap.value + 1,
                                               p.aggregate.value, b.n)
        else p.aggregate.None?)
  }

  method VerifyPolicySatisfaction(o: Oracle, commitment: Pt, b: Bounds, p: Proof) returns (ok: bool)
    ensures ok == Accepts(o, commitment, b, p)
  {
    hide AcceptsBelow, ShiftCommitment;
    if p.n != b.n { return false; }
    if b.cap.Some? && b.aggregate.None? { return false; }
    ok := VerifyBelow(o, commitment, b.ceiling + 1, p.ceiling, b.n);
    if !ok { return false; }
    if Capped(b) {
      if p.aggregate.None? { return false; }
      ok := VerifyBelow(o, ShiftCommitment(commitment, b.aggregate.value), b.cap.value + 1, p.aggregate.value, b.n);
    } else if p.aggregate.Some? {
      return false;
    }
  }

  lemma ShiftIs(c: Pt, delta: int)
    ensures ShiftCommitment(c, delta) == Pt(Mod(c.g + delta), Mod(c.h))
  {
    MulOfG(delta);
    ModAdd(c.g, delta);
  }

  /** Shifting a commitment commits to the sum with the same opening. */
  lemma ShiftedCommitment(amount: int, opening: int, delta: int)
    ensures ShiftCommitment(Commit(amount, opening), delta) == Commit(amount + delta, opening)
  {
    CommitIs(amount, opening);
    CommitIs(amount + delta, opening);
    ShiftIs(Commit(amount, opening), delta);
    ModAdd(amount, delta);
    ModMod(opening);
  }

  /** Both range proofs can be made. */
  predicate Provable(amount: int, b: Bounds) {
    && ZkRange.Provable(amount, b.ceiling + 1, b.n)
    && (Capped(b) ==> ZkRange.Provable(amount + b.aggregate.value, b.cap.value + 1, b.n))
  }

  /**
   Makes a proof exactly for the provable amounts. The verifier accepts every such proof, except under a
   policy with a cap but no aggregate.
   */
  method ProvePolicySatisfaction(o: Oracle, tapes: Tapes, amount: int, opening: int, b: Bounds)
    returns (p: Option<Proof>)
    ensures p.Some? <==> Provable(amount, b)
    ensures p.Some? && Prime(L) ==> (Accepts(o, Commit(amount, opening), b, p.value) <==>
                                     (b.cap.Some? ==> b.aggregate.Some?))
  {
    hide AcceptsBelow, Commit, ShiftCommitment, ZkRange.Provable;
    var ceiling := ProveBelow(o, tapes.amount, tapes.diff, amount, opening, b.ceiling + 1, b.n);
    if ceiling.None? { return None; }
    var aggregate: Option<RangeProof> := None;
    if Capped(b) {
      aggregate := ProveBelow(o, tapes.sum, tapes.sumDiff, amount + b.aggregate.value, opening, b.cap.value + 1, b.n);
      if aggregate.None? { return None; }
      ShiftedCommitment(amount, opening, b.aggregate.value);
    }
    p := Some(Proof(b.n, ceiling.value, aggregate));
  }

  // --- soundness ---

  /** Two accepted proofs with the same first messages and different challenges. */
  ghost predicate Convinces(o: Oracle, o': Oracle, commitment: Pt, b: Bounds, p: Proof, p': Proof) {
    && Accepts(o, commitment, b, p) && Accepts(o', commitment, b, p')
    && ForkedRange(o, o', commitment, b.ceiling + 1, p.ceiling, p'.ceiling, b.n)
    && (Capped(b) ==> ForkedRange(o, o', ShiftCommitment(commitment, b.aggregate.value), b.cap.value + 1,
                                  p.aggregate.value, p'.aggregate.value, b.n))
  }

  /** The sum keeps to the cap modulo the order. */
  ghost predicate SeemsWithin(amount: int, b: Bounds) {
    && 1 <= b.n <= MAX_BITS && 0 <= amount <= b.ceiling < Pow2(b.n)
    && (b.cap.Some? ==> b.aggregate.Some? && b.cap.value < Pow2(b.n) && Mod(amount + b.aggregate.value) <= b.cap.value)
  }

  /** Aggregates with which no sum of an `n`-bit amount wraps around the order into an `n`-bit cap. */
  ghost predicate NeverWraps(n: nat, aggregate: int) {
    aggregate <= L - Pow2(n) || Pow2(n) <= Mod(aggregate) <= L - Pow2(n)
  }

  /**
   Soundness: what is convincing is a commitment to an amount within the ceiling, with a sum that seems within the
   cap.
   */
  lemma ConvincesOf(o: Oracle, o': Oracle, commitment: Pt, b: Bounds, p: Proof, p': Proof)
    requires Prime(L) && Convinces(o, o', commitment, b, p, p')
    ensures SeemsWithin(commitment.g, b)
  {
    hide ForkedRange, AcceptsSub, ShiftCommitment, Sub, Mul, Mod, Pow2;
    RangeSound(o, o', commitment, b.ceiling + 1, p.ceiling, p'.ceiling, b.n);
    if Capped(b) {
      RangeSound(o, o', ShiftCommitment(commitment, b.aggregate.value), b.cap.value + 1, p.aggregate.value,
                 p'.aggregate.value, b.n);
      ShiftIs(commitment, b.aggregate.value);
    }
  }

  /** The proof for an amount whose sum seems within the cap. */
  ghost function ProofFor(o: Oracle, tapes: Tapes, amount: int, opening: int, b: Bounds): Proof
    requires SeemsWithin(amount, b)
  {
    Proof(b.n, ProofBelow(o, tapes.amount, tapes.diff, amount, opening, b.ceiling + 1, b.n).value,
          if Capped(b)
          then ProofBelow(o, tapes.sum, tapes.sumDiff, Mod(amount + b.aggregate.value), opening, b.cap.value + 1, b.n)
          else None)
  }

  lemma ShiftedSeems(amount: int, opening: int, delta: int)
    ensures ShiftCommitment(Commit(amount, opening), delta) == Commit(Mod(amount + delta), opening)
  {
    ShiftedCommitment(amount, opening, delta);
    SameCommit(amount + delta, opening);
  }

  /** The verifier accepts a proof for every amount whose sum seems within the cap, under every oracle. */
  lemma SeemingAccepted(o: Oracle, tapes: Tapes, amount: int, opening: int, b: Bounds)
    requires Prime(L) && SeemsWithin(amount, b)
    ensures Accepts(o, Commit(amount, opening), b, ProofFor(o, tapes, amount, opening, b))
  {
    hide AcceptsBelow, Commit, ShiftCommitment, SubProofOf, BitCommitments, Mod;
    var p := ProofFor(o, tapes, amount, opening, b);
    RangeComplete(o, tapes.amount, tapes.diff, amount, opening, b.ceiling + 1, b.n, p.ceiling);
    if Capped(b) {
      var sum := Mod(amount + b.aggregate.value);
      ModRange(amount + b.aggregate.value);
      RangeComplete(o, tapes.sum, tapes.sumDiff, sum, opening, b.cap.value + 1, b.n, p.aggregate.value);
      ShiftedSeems(amount, opening, b.aggregate.value);
    }
  }

  lemma SeemingConvinces(tapes: Tapes, amount: int, opening: int, b: Bounds)
    requires Prime(L) && SeemsWithin(amount, b)
    ensures Convinces(Constant(0), Constant(1), Commit(amount, opening), b,
                      ProofFor(Constant(0), tapes, amount, opening, b),
                      ProofFor(Constant(1), tapes, amount, opening, b))
  {
    hide AcceptsBelow, ForkedRange, Commit, ShiftCommitment, SubProofOf, BitCommitments, Mod, Constant;
    SeemingAccepted(Constant(0), tapes, amount, opening, b);
    SeemingAccepted(Constant(1), tapes, amount, opening, b);
    RangeForks(tapes.amount, tapes.diff, amount, opening, b.ceiling + 1, b.n);
    if Capped(b) {
      var sum := Mod(amount + b.aggregate.value);
      ModRange(amount + b.aggregate.value);
      RangeForks(tapes.sum, tapes.sumDiff, sum, opening, b.cap.value + 1, b.n);
      ShiftedSeems(amount, opening, b.aggregate.value);
    }
  }

  ghost predicate Convincing(commitment: Pt, b: Bounds) {
    exists o, o', p, p' :: Convinces(o, o', commitment, b, p, p')
  }

  /** Exactly the amounts within the ceiling whose sum seems within the cap have convincing commitments. */
  lemma PolicyExactly(amount: int, opening: int, b: Bounds)
    requires Prime(L)
    ensures Convincing(Commit(amount, opening), b) <==> SeemsWithin(Mod(amount), b)
  {
    hide Convinces, SeemsWithin, Mod;
    if Convincing(Commit(amount, opening), b) {
      var o, o', p, p' :| Convinces(o, o', Commit(amount, opening), b, p, p');
      ConvincesOf(o, o', Commit(amount, opening), b, p, p');
      CommitIs(amount, opening);
    }
    if SeemsWithin(Mod(amount), b) {
      var coins := Coins(i => 0, i => 0, i => 0, i => 0);
      SeemingConvinces(Tapes(coins, coins, coins, coins), Mod(amount), opening, b);
      SameCommit(amount, opening);
    }
  }

  /** Whatever is convincing under this aggregate keeps to its cap, as integers. */
  ghost predicate CapsHold(n: int, aggregate: int) {
    forall amount, opening, ceiling, cap :: CapHolds(amount, opening, Bounds(ceiling, Some(aggregate), Some(cap), n))
  }

  ghost predicate CapHolds(amount: int, opening: int, b: Bounds)
    requires Capped(b)
  {
    Convincing(Commit(amount, opening), b) ==> Mod(amount) + b.aggregate.value <= b.cap.value
  }

  /** The verifier enforces every cap exactly under the public aggregates with which no sum wraps. */
  lemma SumExactly(n: nat, aggregate: int)
    requires Prime(L) && 1 <= n <= MAX_BITS
    ensures CapsHold(n, aggregate) <==> NeverWraps(n, aggregate)
  {
    hide Mod, Pow2, Convincing, Commit;
    if NeverWraps(n, aggregate) {
      forall amount, opening, ceiling, cap
        ensures CapHolds(amount, opening, Bounds(ceiling, Some(aggregate), Some(cap), n))
      {
        PolicyExactly(amount, opening, Bounds(ceiling, Some(aggregate), Some(cap), n));
        if SeemsWithin(Mod(amount), Bounds(ceiling, Some(aggregate), Some(cap), n)) {
          SeemingHolds(n, aggregate, Mod(amount), cap);
        }
      }
    } else {
      var amount, cap := OverCap(n, aggregate);
      var b := Bounds(amount, Some(aggregate), Some(cap), n);
      PolicyExactly(amount, 0, b);
      assert !CapHolds(amount, 0, b);
    }
  }

  lemma SeemingHolds(n: nat, aggregate: int, amount: int, cap: int)
    requires n <= MAX_BITS && NeverWraps(n, aggregate)
    requires 0 <= amount < Pow2(n) && cap < Pow2(n) && Mod(amount + aggregate) <= cap
    ensures amount + aggregate <= cap
  {
    hide Mod, Pow2;
    PowersBelowOrder(n);
    ModRange(amount + aggregate);
    SumFits(Pow2(n), aggregate, amount, cap);
  }

  /** An amount and a cap for every other aggregate: the sum seems within the cap and is beyond it. */
  lemma OverCap(n: nat, aggregate: int) returns (amount: int, cap: int)
    requires n <= MAX_BITS && !NeverWraps(n, aggregate)
    ensures 0 <= amount < Pow2(n) && Mod(amount) == amount && cap < Pow2(n)
    ensures Mod(amount + aggregate) <= cap && amount + aggregate > cap
  {
    hide Mod, Pow2;
    PowersBelowOrder(n);
    ModRange(aggregate);
    if Mod(aggregate) < Pow2(n) {
      Reaches(Pow2(n), aggregate);
      amount, cap := 0, Mod(aggregate);
    } else {
      Wraps(aggregate);
      amount, cap := L - Mod(aggregate), 0;
    }
    ModSmall(amount);
  }

  lemma SumFits(bound: int, aggregate: int, amount: int, cap: int)
    requires 1 <= bound && 2 * bound <= L && 0 <= amount < bound && 0 <= cap < bound && Mod(amount + aggregate) <= cap
    requires aggregate <= L - bound || bound <= Mod(aggregate) <= L - bound
    ensures amount + aggregate <= cap
  {
    if 0 <= amount + aggregate < L {
      ModSmall(amount + aggregate);
    } else if amount + aggregate >= L {
      ModAdd(amount, aggregate);
      ModSmall(amount + Mod(aggregate));
    }
  }

  lemma Reaches(bound: int, aggregate: int)
    requires 1 <= bound && 2 * bound <= L && aggregate > L - bound && Mod(aggregate) < bound
    ensures aggregate > Mod(aggregate)
  {
    if aggregate < L { ModSmall(aggregate); }
  }

  lemma Wraps(aggregate: int)
    ensures Mod(L - Mod(aggregate) + aggregate) == 0
  {
    ModSubtract(L + aggregate, aggregate);
  }

  /**
   Soundness: two accepted proofs with the same first messages and different challenges are for a committed
   amount within the ceiling, and within the cap together with a public aggregate that cannot wrap.
   */
  lemma PolicySound(o: Oracle, o': Oracle, commitment: Pt, b: Bounds, p: Proof, p': Proof)
    requires Prime(L) && Convinces(o, o', commitment, b, p, p')
    ensures 0 <= commitment.g <= b.ceiling
    ensures Capped(b) && NeverWraps(b.n, b.aggregate.value) ==> commitment.g + b.aggregate.value <= b.cap.value
    ensures Capped(b) && 0 <= b.aggregate.value < Pow2(b.n) ==> commitment.g + b.aggregate.value <= b.cap.value
  {
    hide Convinces, Mod, Pow2;
    ConvincesOf(o, o', commitment, b, p, p');
    if Capped(b) {
      PowersBelowOrder(b.n);
      if NeverWraps(b.n, b.aggregate.value) { SeemingHolds(b.n, b.aggregate.value, commitment.g, b.cap.value); }
    }
  }
}
