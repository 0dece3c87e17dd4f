/** Receipts attested by a quorum of a validator set, counted by members or by stake. */
module QuorumReceipts {
  import opened ByteStrings
  import opened Collections
  import opened Stake
  import opened Counting

  datatype Attestation = Attestation(validator: string, suite: string, sig: Bytes)

  /** What a receipt commits to; `body` stands for the wrapped receipt. */
  datatype Body = Body(body: Bytes, setId: string, k: int, epoch: int, suite: string)

  datatype Receipt = Receipt(body: Body, attestations: seq<Attestation>)

  datatype Crypto = Crypto(
    /** Suite, signature, signed body, hex key. */
    verify: (string, Bytes, Body, string) -> bool,
    setId: (ValidatorSet, int, int) -> string)

  datatype Reason =
    | BadThreshold | MalformedSet | WrongThreshold | WrongEpoch | WrongSet | TooManyAttestations | TooFew

  datatype Verdict = Verdict(ok: bool, distinctValid: nat, threshold: int, reasons: seq<Reason>)

  function BallotOf(cx: Crypto, body: Body, a: Attestation): Ballot {
    Ballot(a.validator, a.suite == body.suite, cx.verify(a.suite, a.sig, body, a.validator))
  }

  function BallotsFor(cx: Crypto, body: Body, attestations: seq<Attestation>): seq<Ballot> {
    Mapped(a => BallotOf(cx, body, a), attestations)
  }

  function Ballots(cx: Crypto, r: Receipt): seq<Ballot> {
    BallotsFor(cx, r.body, r.attestations)
  }

  /** The stake of the last entry with this key. */
  function LastStake(vs: seq<Validator>, key: string): nat {
    if vs == [] then 0
    else
      var v := vs[|vs| - 1];
      if v.pubkey == key then SafeStake(v.stake) else LastStake(vs[..|vs| - 1], key)
  }

  predicate Member(vs: seq<Validator>, key: string) {
    exists i :: 0 <= i < |vs| && vs[i].pubkey == key
  }

  /** The stake of a set of keys, each counted once, at its last entry. */
  ghost function LastWeight(vs: seq<Validator>, keys: set<string>): nat {
    if vs == [] then 0
    else
      var v := vs[|vs| - 1];
      (if v.pubkey in keys then SafeStake(v.stake) else 0) + LastWeight(vs[..|vs| - 1], keys - {v.pubkey})
  }

  lemma {:induction false} LastWeightEmpty(vs: seq<Validator>)
    ensures LastWeight(vs, {}) == 0
    decreases |vs|
  {
    if vs == [] {
    } else {
      LastWeightEmpty(vs[..|vs| - 1]);
      assert {} - {vs[|vs| - 1].pubkey} == {};
    }
  }

  lemma {:induction false} LastWeightAdd(vs: seq<Validator>, keys: set<string>, key: string)
    requires key !in keys
    ensures LastWeight(vs, keys + {key}) == LastWeight(vs, keys) + LastStake(vs, key)
    decreases |vs|
  {
    if vs == [] {
    } else {
      var k := vs[|vs| - 1].pubkey;
      if k == key {
        assert keys + {key} - {k} == keys - {k};
      } else {
        assert keys + {key} - {k} == (keys - {k}) + {key};
        LastWeightAdd(vs[..|vs| - 1], keys - {k}, key);
      }
    }
  }

  /** Without repeated keys, first and last entries are the same. */
  lemma {:induction false} LastIsFirst(vs: seq<Validator>, keys: set<string>)
    requires forall i, j :: 0 <= i < j < |vs| ==> vs[i].pubkey != vs[j].pubkey
    ensures LastWeight(vs, keys) == Weight(vs, keys)
    decreases |vs|
  {
    if vs == [] {
    } else {
      var n := |vs| - 1;
      LastIsFirst(vs[..n], keys - {vs[n].pubkey});
      WeightOfLast(vs, keys);
    }
  }

  lemma {:induction false} WeightOfLast(vs: seq<Validator>, keys: set<string>)
    requires vs != [] && forall i, j :: 0 <= i < j < |vs| ==> vs[i].pubkey != vs[j].pubkey
    ensures var v := vs[|vs| - 1];
            Weight(vs, keys) == (if v.pubkey in keys then SafeStake(v.stake) else 0)
                + Weight(vs[..|vs| - 1], keys - {v.pubkey})
    decreases |vs|
  {
    var n := |vs| - 1;
    if n == 0 {
      assert vs[1..] == [] && vs[..0] == [];
    } else {
      var v, w := vs[n], vs[0];
      assert vs[1..][n - 1] == v && vs[1..][..n - 1] == vs[..n][1..];
      WeightOfLast(vs[1..], keys - {w.pubkey});
      assert (keys - {w.pubkey}) - {v.pubkey} == (keys - {v.pubkey}) - {w.pubkey};
    }
  }

  // --- counting ---

  /** Calls back once for each member, on its first valid attestation; `calls` lists the calls. */
  method CountDistinctValid(cx: Crypto, r: Receipt, member: string -> bool)
    returns (seen: set<string>, calls: seq<string>)
    ensures seen == CountAny(member, Ballots(cx, r))
    ensures multiset(calls) == multiset(seen)
  {
    hide CountAny;
    seen, calls := {}, [];
    ghost var ballots := Ballots(cx, r);
    CountAnyNone(member);
    for i := 0 to |r.attestations|
      invariant seen == CountAny(member, ballots[..i])
      invariant multiset(calls) == multiset(seen)
    {
      assert ballots[..i + 1] == ballots[..i] + [ballots[i]];
      CountAnyNext(member, ballots[..i], ballots[i]);
      var a := r.attestations[i];
      if a.suite != r.body.suite { continue; }
      if !member(a.validator) || a.validator in seen { continue; }
      if cx.verify(a.suite, a.sig, r.body, a.validator) {
        seen := seen + {a.validator};
        calls := calls + [a.validator];
      }
    }
    assert ballots[..|r.attestations|] == ballots;
  }

  lemma CountAnyNone(member: string -> bool)
    ensures CountAny(member, []) == {}
  {
  }

  lemma CountAnyNext(member: string -> bool, before: seq<Ballot>, b: Ballot)
    ensures CountAny(member, before + [b])
            == CountAny(member, before) + if b.relevant && member(b.voter) && b.valid then {b.voter} else {}
  {
    assert (before + [b])[..|before|] == before;
  }

  function MaxAttestations(set_: ValidatorSet): nat {
    if |set_.validators| * 4 > 256 then |set_.validators| * 4 else 256
  }

  /** The members with a valid attestation; none are looked for in an oversized list. */
  function Counted(cx: Crypto, r: Receipt, set_: ValidatorSet): set<string> {
    if |r.attestations| > MaxAttestations(set_) then {} else CountAny(v => Member(set_.validators, v), Ballots(cx, r))
  }

  method VerifyQuorumReceipt(cx: Crypto, r: Receipt, set_: ValidatorSet, k: int, epoch: int) returns (v: Verdict)
    ensures v.distinctValid == |Counted(cx, r, set_)| && v.threshold == k
    ensures v.ok <==> k >= 1 && r.body.k == k && r.body.epoch == epoch && r.body.setId == cx.setId(set_, k, epoch)
                      && |r.attestations| <= MaxAttestations(set_) && v.distinctValid >= k
    ensures v.ok <==> v.reasons == []
  {
    var reasons := When(k < 1, BadThreshold) + When(r.body.k != k, WrongThreshold)
        + When(r.body.epoch != epoch, WrongEpoch)
                   + When(r.body.setId != cx.setId(set_, k, epoch), WrongSet);
    var distinct := 0;
    if |r.attestations| > MaxAttestations(set_) {
      reasons := reasons + [TooManyAttestations];
    } else {
      var seen, calls := CountDistinctValid(cx, r, v => Member(set_.validators, v));
      distinct := |calls|;
      assert |calls| == |multiset(calls)| == |multiset(seen)| == |seen|;
    }
    reasons := reasons + When(distinct < k, TooFew);
    v := Verdict(reasons == [], distinct, k, reasons);
  }

  method VerifyQuorumReceiptByStake(cx: Crypto, r: Receipt, set_: ValidatorSet, stakeThreshold: int, epoch: int)
    returns (v: Verdict)
    ensures v.distinctValid == |Counted(cx, r, set_)| && v.threshold == stakeThreshold
    ensures v.ok <==> stakeThreshold > 0 && (forall i :: 0 <= i < |set_.validators| ==> set_.validators[i].stake >= 0)
                      && r.body.epoch == epoch && r.body.setId == cx.setId(set_, r.body.k, epoch)
                      && |r.attestations| <= MaxAttestations(set_)
                      && LastWeight(set_.validators, Counted(cx, r, set_)) >= stakeThreshold
    ensures v.ok <==> v.reasons == []
  {
    var vs := set_.validators;
    var reasons := When(stakeThreshold <= 0, BadThreshold)
                   + When(exists i :: 0 <= i < |vs| && vs[i].stake < 0, MalformedSet)
                   + When(r.body.epoch != epoch, WrongEpoch)
                   + When(r.body.setId != cx.setId(set_, r.body.k, epoch), WrongSet);
    var stake, counted := 0, 0;
    LastWeightEmpty(vs);
    if |r.attestations| > MaxAttestations(set_) {
      reasons := reasons + [TooManyAttestations];
    } else {
      var seen, calls := CountDistinctValid(cx, r, v => Member(vs, v));
      stake := AddStakes(vs, seen, calls);
      counted := |calls|;
      assert |calls| == |multiset(calls)| == |multiset(seen)| == |seen|;
    }
    reasons := reasons + When(stake < stakeThreshold, TooFew);
    v := Verdict(reasons == [], counted, stakeThreshold, reasons);
  }

  /** The stake accumulated over the callbacks. */
  method AddStakes(vs: seq<Validator>, ghost seen: set<string>, calls: seq<string>) returns (stake: nat)
    requires multiset(calls) == multiset(seen)
    ensures stake == LastWeight(vs, seen)
  {
    stake := 0;
    ghost var done: set<string> := {};
    LastWeightEmpty(vs);
    for i := 0 to |calls|
      invariant multiset(calls[..i]) == multiset(done) && stake == LastWeight(vs, done)
    {
      assert calls[..i + 1] == calls[..i] + [calls[i]];
      CallsDistinct(calls, seen, i);
      assert calls[i] !in done by { assert multiset(done)[calls[i]] == multiset(calls[..i])[calls[i]] == 0; }
      LastWeightAdd(vs, done, calls[i]);
      stake := stake + LastStake(vs, calls[i]);
      done := done + {calls[i]};
    }
    assert calls[..|calls|] == calls;
    assert done == seen by {
      assert forall x :: x in done <==> x in multiset(done);
      assert forall x :: x in seen <==> x in multiset(seen);
    }
  }

  lemma CallsDistinct(calls: seq<string>, seen: set<string>, i: nat)
    requires multiset(calls) == multiset(seen) && i < |calls|
    ensures calls[i] !in calls[..i]
  {
    assert calls == calls[..i] + [calls[i]] + calls[i + 1..];
    assert multiset(calls)[calls[i]] <= 1;
  }

  // --- what acceptance means ---

  /** Exactly the members with some valid attestation under the committed suite count, in any order. */
  lemma CountedExactly(cx: Crypto, r: Receipt, set_: ValidatorSet, key: string)
    requires |r.attestations| <= MaxAttestations(set_)
    ensures key in Counted(cx, r, set_) <==>
            Member(set_.validators, key)
            && exists i :: 0 <= i < |r.attestations| && r.attestations[i].validator == key
                && r.attestations[i].suite == r.body.suite
                           && cx.verify(r.body.suite, r.attestations[i].sig, r.body, key)
  {
    var ballots := Ballots(cx, r);
    CountAnyExact(v => Member(set_.validators, v), ballots);
    if SomeVerifies(ballots, key) {
      var i :| RelevantAt(ballots, key, i) && ballots[i].valid;
      assert r.attestations[i].validator == key;
    }
    if i :| 0 <= i < |r.attestations| && r.attestations[i].validator == key && r.attestations[i].suite == r.body.suite
            && cx.verify(r.body.suite, r.attestations[i].sig, r.body, key)
    {
      assert RelevantAt(ballots, key, i) && ballots[i].valid;
    }
  }

  lemma CountedOrderIndependent(cx: Crypto, r: Receipt, r': Receipt, set_: ValidatorSet)
    requires r.body == r'.body && multiset(r.attestations) == multiset(r'.attestations)
    ensures Counted(cx, r, set_) == Counted(cx, r', set_)
  {
    assert |r.attestations| == |multiset(r.attestations)| == |multiset(r'.attestations)| == |r'.attestations|;
    MappedPermutation(a => BallotOf(cx, r.body, a), r.attestations, r'.attestations);
    CountAnyOrderIndependent(v => Member(set_.validators, v), Ballots(cx, r), Ballots(cx, r'));
  }
}
