/** Enactment of proposals by a quorum of members, with a bounded number of signature checks. */
module Governance {
  import opened ByteStrings
  import opened Collections
  import opened Counting

  datatype Proposal = Proposal(id: string, kind: string, target: string, payload: Bytes, notBefore: int, notAfter: int,
                               nonce: string)

  datatype Approval = Approval(proposalId: string, signer: string, suite: string, sig: Bytes)

  datatype Quorum = Quorum(members: seq<string>, threshold: int)

  /** Suite, signature, proposal, quorum and signer; the message binds the whole quorum. */
  type Verifier = (string, Bytes, Proposal, Quorum, string) -> bool

  datatype Reason = UnsafeClock | MalformedWindow | OutsideWindow | BadThreshold | TooFew | NotARevocation

  datatype Result = Result(enacted: bool, validApprovals: nat, reasons: seq<Reason>)

  predicate VerifyApproval(verify: Verifier, p: Proposal, a: Approval, q: Quorum) {
    a.proposalId == p.id && verify(a.suite, a.sig, p, q, a.signer)
  }

  function MaxVerifies(q: Quorum): nat {
    if |q.members| * 4 > 256 then |q.members| * 4 else 256
  }

  function WindowReasons(p: Proposal, now: int): seq<Reason> {
    if !Safe(now) then [UnsafeClock]
    else if !Safe(p.notBefore) || !Safe(p.notAfter) || p.notAfter < p.notBefore then [MalformedWindow]
    else if now < p.notBefore || now > p.notAfter then [OutsideWindow]
    else []
  }

  // --- counting with a budget ---

  datatype Progress = Progress(valid: set<string>, verifies: nat)

  /** One approval; without a positive threshold the quorum is never reached. */
  function Step(verify: Verifier, p: Proposal, q: Quorum, t: Progress, a: Approval): Progress {
    if (q.threshold >= 1 && |t.valid| >= q.threshold) || a.signer !in q.members || a.signer in t.valid
        || t.verifies >= MaxVerifies(q) then t
    else Progress(if VerifyApproval(verify, p, a, q) then t.valid + {a.signer} else t.valid, t.verifies + 1)
  }

  function Count(verify: Verifier, p: Proposal, q: Quorum, approvals: seq<Approval>): Progress {
    if approvals == [] then Progress({}, 0)
    else Step(verify, p, q, Count(verify, p, q, approvals[..|approvals| - 1]), approvals[|approvals| - 1])
  }

  function Outcome(verify: Verifier, p: Proposal, approvals: seq<Approval>, q: Quorum, now: int): Result {
    var n := |Count(verify, p, q, approvals).valid|;
    var reasons := WindowReasons(p, now) + (if q.threshold < 1 then [BadThreshold] else [])
        + (if n < q.threshold then [TooFew] else []);
    Result(reasons == [], n, reasons)
  }

  lemma NothingCounted(verify: Verifier, p: Proposal, q: Quorum, approvals: seq<Approval>)
    requires |approvals| == 0
    ensures Count(verify, p, q, approvals) == Progress({}, 0)
  {
  }

  lemma CountNext(verify: Verifier, p: Proposal, q: Quorum, approvals: seq<Approval>, i: nat)
    requires i < |approvals|
    ensures Count(verify, p, q, approvals[..i + 1])
            == Step(verify, p, q, Count(verify, p, q, approvals[..i]), approvals[i])
  {
    hide Step;
    assert approvals[..i + 1][..i] == approvals[..i];
  }

  method Enact(verify: Verifier, p: Proposal, approvals: seq<Approval>, q: Quorum, now: int) returns (r: Result)
    ensures r == Outcome(verify, p, approvals, q, now)
  {
    hide VerifyApproval, WindowReasons, MaxVerifies, Count;
    assert Count(verify, p, q, approvals[..0]) == Progress({}, 0) by { NothingCounted(verify, p, q, approvals[..0]); }
    var reasons := WindowReasons(p, now);
    if q.threshold < 1 { reasons := reasons + [BadThreshold]; }
    var distinctValid, verifies := {}, 0;
    var i := 0;
    while i < |approvals|
      invariant i <= |approvals|
      invariant Progress(distinctValid, verifies) == Count(verify, p, q, approvals[..i])
    {
      var a := approvals[i];
      if q.threshold >= 1 && |distinctValid| >= q.threshold { break; }
      if a.signer in q.members && a.signer !in distinctValid {
        if verifies >= MaxVerifies(q) { break; }
        verifies := verifies + 1;
        if VerifyApproval(verify, p, a, q) { distinctValid := distinctValid + {a.signer}; }
      }
      CountNext(verify, p, q, approvals, i);
      i := i + 1;
    }
    if i < |approvals| { Stopped(verify, p, q, approvals, i); } else { assert approvals[..i] == approvals; }
    var n := |distinctValid|;
    if n < q.threshold { reasons := reasons + [TooFew]; }
    r := Result(reasons == [], n, reasons);
  }

  /** Once the quorum is reached or the budget is spent, the rest of the list changes nothing. */
  lemma {:induction false} Stopped(verify: Verifier, p: Proposal, q: Quorum, approvals: seq<Approval>, i: nat)
    requires i <= |approvals|
    requires var t := Count(verify, p, q, approvals[..i]);
             (q.threshold >= 1 && |t.valid| >= q.threshold)
             || t.verifies >= MaxVerifies(q)
    ensures Count(verify, p, q, approvals) == Count(verify, p, q, approvals[..i])
    decreases |approvals|
  {
    if i == |approvals| {
      assert approvals[..i] == approvals;
    } else {
      var n := |approvals| - 1;
      assert approvals[..n][..i] == approvals[..i];
      Stopped(verify, p, q, approvals[..n], i);
    }
  }

  // --- approvals of strangers ---

  function ByMembers(q: Quorum, approvals: seq<Approval>): seq<Approval> {
    if approvals == [] then []
    else
      var rest, a := ByMembers(q, approvals[..|approvals| - 1]), approvals[|approvals| - 1];
      if a.signer in q.members then rest + [a] else rest
  }

  lemma {:induction false} OnlyMembersCount(verify: Verifier, p: Proposal, q: Quorum, approvals: seq<Approval>)
    ensures Count(verify, p, q, approvals) == Count(verify, p, q, ByMembers(q, approvals))
    decreases |approvals|
  {
    if approvals == [] {
    } else {
      var n := |approvals| - 1;
      OnlyMembersCount(verify, p, q, approvals[..n]);
      var rest := ByMembers(q, approvals[..n]);
      assert (rest + [approvals[n]])[..|rest|] == rest;
    }
  }

  /** Approvals of strangers, however many and wherever they stand, never change the result. */
  lemma StrangersIrrelevant(verify: Verifier, p: Proposal, approvals: seq<Approval>, approvals': seq<Approval>,
                            q: Quorum, now: int)
    requires ByMembers(q, approvals) == ByMembers(q, approvals')
    ensures Outcome(verify, p, approvals, q, now) == Outcome(verify, p, approvals', q, now)
  {
    OnlyMembersCount(verify, p, q, approvals);
    OnlyMembersCount(verify, p, q, approvals');
  }

  lemma {:induction false} InsertStrangers(q: Quorum, before: seq<Approval>, strangers: seq<Approval>,
                                           after: seq<Approval>)
    requires forall i :: 0 <= i < |strangers| ==> strangers[i].signer !in q.members
    ensures ByMembers(q, before + strangers + after) == ByMembers(q, before + after)
    decreases |strangers| + |after|
  {
    var all := before + strangers + after;
    if after != [] {
      var n := |after| - 1;
      InsertStrangers(q, before, strangers, after[..n]);
      assert all[..|all| - 1] == before + strangers + after[..n];
      assert (before + after)[..|before + after| - 1] == before + after[..n];
    } else if strangers != [] {
      var m := |strangers| - 1;
      InsertStrangers(q, before, strangers[..m], after);
      assert all[..|all| - 1] == before + strangers[..m] + after;
    } else {
      assert all == before + after;
    }
  }

  // --- who approved ---

  function BallotOf(verify: Verifier, p: Proposal, q: Quorum, a: Approval): Ballot {
    Ballot(a.signer, a.proposalId == p.id, verify(a.suite, a.sig, p, q, a.signer))
  }

  function Ballots(verify: Verifier, p: Proposal, q: Quorum, approvals: seq<Approval>): seq<Ballot> {
    Mapped(a => BallotOf(verify, p, q, a), approvals)
  }

  /** The members with some valid approval. */
  ghost function Approvers(verify: Verifier, p: Proposal, q: Quorum, approvals: seq<Approval>): set<string> {
    CountAny(v => v in q.members, Ballots(verify, p, q, approvals))
  }

  /** Who approved does not depend on the order of the approvals. */
  lemma ApproversOrderIndependent(verify: Verifier, p: Proposal, q: Quorum, approvals: seq<Approval>,
                                  approvals': seq<Approval>)
    requires multiset(approvals) == multiset(approvals')
    ensures Approvers(verify, p, q, approvals) == Approvers(verify, p, q, approvals')
  {
    MappedPermutation(a => BallotOf(verify, p, q, a), approvals, approvals');
    CountAnyOrderIndependent(v => v in q.members, Ballots(verify, p, q, approvals), Ballots(verify, p, q, approvals'));
  }

  lemma ApproversStep(verify: Verifier, p: Proposal, q: Quorum, approvals: seq<Approval>)
    requires |approvals| > 0
    ensures var before, a := approvals[..|approvals| - 1], approvals[|approvals| - 1];
            Approvers(verify, p, q, approvals)
            == if a.signer in q.members && VerifyApproval(verify, p, a, q)
               then Approvers(verify, p, q, before) + {a.signer} else Approvers(verify, p, q, before)
  {
    var n := |approvals| - 1;
    assert Ballots(verify, p, q, approvals)[..n] == Ballots(verify, p, q, approvals[..n]);
  }

  lemma {:induction false} ApproversMonotone(verify: Verifier, p: Proposal, q: Quorum, approvals: seq<Approval>, k: nat)
    requires k <= |approvals|
    ensures Approvers(verify, p, q, approvals[..k]) <= Approvers(verify, p, q, approvals)
    decreases |approvals|
  {
    hide Approvers;
    if k == |approvals| {
      assert approvals[..k] == approvals;
    } else {
      var n := |approvals| - 1;
      assert approvals[..n][..k] == approvals[..k];
      ApproversMonotone(verify, p, q, approvals[..n], k);
      ApproversStep(verify, p, q, approvals);
    }
  }

  // --- when a proposal is enacted ---

  predicate InWindow(p: Proposal, now: int) {
    Safe(now) && Safe(p.notBefore) && Safe(p.notAfter) && p.notBefore <= now <= p.notAfter
  }

  /** Only approvers are counted, whatever the list. */
  lemma {:induction false} CountedApproved(verify: Verifier, p: Proposal, q: Quorum, approvals: seq<Approval>)
    ensures Count(verify, p, q, approvals).valid <= Approvers(verify, p, q, approvals)
    decreases |approvals|
  {
    hide Approvers, VerifyApproval, MaxVerifies;
    if |approvals| == 0 {
    } else {
      CountedApproved(verify, p, q, approvals[..|approvals| - 1]);
      ApproversStep(verify, p, q, approvals);
    }
  }

  /** Whatever is in the list, a proposal is enacted only in its window and with enough members behind it. */
  lemma EnactedHasQuorum(verify: Verifier, p: Proposal, approvals: seq<Approval>, q: Quorum, now: int)
    requires Outcome(verify, p, approvals, q, now).enacted
    ensures InWindow(p, now) && 1 <= q.threshold <= |Approvers(verify, p, q, approvals)|
  {
    CountedApproved(verify, p, q, approvals);
    SubsetSize(Count(verify, p, q, approvals).valid, Approvers(verify, p, q, approvals));
  }

  /** The signature checks that the list asks for: approvals by members who have not yet approved. */
  ghost function Attempts(verify: Verifier, p: Proposal, q: Quorum, approvals: seq<Approval>): nat {
    if |approvals| == 0 then 0
    else
      var before, a := approvals[..|approvals| - 1], approvals[|approvals| - 1];
      Attempts(verify, p, q, before) + if a.signer in q.members && a.signer !in Approvers(verify, p, q, before) then 1
          else 0
  }

  lemma {:induction false} AttemptsMonotone(verify: Verifier, p: Proposal, q: Quorum, approvals: seq<Approval>, k: nat)
    requires k <= |approvals|
    ensures Attempts(verify, p, q, approvals[..k]) <= Attempts(verify, p, q, approvals)
    decreases |approvals|
  {
    hide Approvers;
    if k == |approvals| {
      assert approvals[..k] == approvals;
    } else {
      var n := |approvals| - 1;
      assert approvals[..n][..k] == approvals[..k];
      AttemptsMonotone(verify, p, q, approvals[..n], k);
    }
  }

  /** Nothing is lost: everyone who approved is counted, and every check that was asked for was made. */
  ghost predicate Complete(verify: Verifier, p: Proposal, q: Quorum, approvals: seq<Approval>) {
    && Attempts(verify, p, q, approvals) <= MaxVerifies(q)
    && Count(verify, p, q, approvals) == Progress(Approvers(verify, p, q, approvals), Attempts(verify, p, q, approvals))
  }

  ghost predicate Spent(verify: Verifier, p: Proposal, q: Quorum, approvals: seq<Approval>) {
    Attempts(verify, p, q, approvals) > MaxVerifies(q) && Count(verify, p, q, approvals).verifies >= MaxVerifies(q)
  }

  /** Before the quorum is reached, the count is complete or the budget is spent. */
  lemma {:induction false} CompleteOrSpent(verify: Verifier, p: Proposal, q: Quorum, approvals: seq<Approval>)
    requires q.threshold >= 1
    ensures || |Count(verify, p, q, approvals).valid| >= q.threshold
            || Complete(verify, p, q, approvals) || Spent(verify, p, q, approvals)
    decreases |approvals|
  {
    if |approvals| == 0 {
      NoneYet(verify, p, q, approvals);
    } else {
      CompleteOrSpent(verify, p, q, approvals[..|approvals| - 1]);
      CountStep(verify, p, q, approvals);
    }
  }

  lemma NoneYet(verify: Verifier, p: Proposal, q: Quorum, approvals: seq<Approval>)
    requires |approvals| == 0
    ensures Approvers(verify, p, q, approvals) == {} && Complete(verify, p, q, approvals)
  {
  }

  /** A complete count stays complete with one more approval that the budget allows for. */
  lemma CountStep(verify: Verifier, p: Proposal, q: Quorum, approvals: seq<Approval>)
    requires q.threshold >= 1 && |approvals| > 0
    ensures var before := approvals[..|approvals| - 1];
            |Count(verify, p, q, before).valid| < q.threshold ==>
              && (Complete(verify, p, q, before) ==>
                  Complete(verify, p, q, approvals) || Spent(verify, p, q, approvals))
              && (Spent(verify, p, q, before) ==>
                    Spent(verify, p, q, approvals) && Count(verify, p, q, approvals) == Count(verify, p, q, before))
  {
    hide Approvers, VerifyApproval, MaxVerifies;
    ApproversStep(verify, p, q, approvals);
  }

  /** Some part of the list shows a quorum before the budget is spent. */
  ghost predicate ShownInTime(verify: Verifier, p: Proposal, q: Quorum, approvals: seq<Approval>) {
    exists k :: ShownAt(verify, p, q, approvals, k)
  }

  ghost predicate ShownAt(verify: Verifier, p: Proposal, q: Quorum, approvals: seq<Approval>, k: nat) {
    && k <= |approvals|
    && |Approvers(verify, p, q, approvals[..k])| >= q.threshold
    && Attempts(verify, p, q, approvals[..k]) <= MaxVerifies(q)
  }

  lemma {:induction false} ReachedShown(verify: Verifier, p: Proposal, q: Quorum, approvals: seq<Approval>)
    returns (k: nat)
    requires q.threshold >= 1 && |Count(verify, p, q, approvals).valid| >= q.threshold
    ensures ShownAt(verify, p, q, approvals, k)
    decreases |approvals|
  {
    hide Approvers, Attempts, Step, MaxVerifies;
    var n := |approvals| - 1;
    var before := approvals[..n];
    if |Count(verify, p, q, before).valid| >= q.threshold {
      k := ReachedShown(verify, p, q, before);
      assert before[..k] == approvals[..k];
    } else {
      CompleteOrSpent(verify, p, q, before);
      CountStep(verify, p, q, approvals);
      k := |approvals|;
      assert approvals[..k] == approvals;
      ReachedComplete(verify, p, q, approvals);
    }
  }

  /** The approval that reaches the quorum is checked within the budget. */
  lemma ReachedComplete(verify: Verifier, p: Proposal, q: Quorum, approvals: seq<Approval>)
    requires q.threshold >= 1 && |approvals| > 0 && |Count(verify, p, q, approvals).valid| >= q.threshold
    requires |Count(verify, p, q, approvals[..|approvals| - 1]).valid| < q.threshold
    requires Complete(verify, p, q, approvals[..|approvals| - 1])
    ensures Complete(verify, p, q, approvals)
  {
    hide Approvers, VerifyApproval, MaxVerifies;
    ApproversStep(verify, p, q, approvals);
  }

  /** The first part of the list that shows a quorum. */
  lemma {:induction false} FirstShown(verify: Verifier, p: Proposal, q: Quorum, approvals: seq<Approval>, k: nat)
    returns (j: nat)
    requires q.threshold >= 1 && k <= |approvals| && |Approvers(verify, p, q, approvals[..k])| >= q.threshold
    ensures 0 < j <= k && |Approvers(verify, p, q, approvals[..j])| >= q.threshold
    ensures |Approvers(verify, p, q, approvals[..j - 1])| < q.threshold
  {
    hide Approvers;
    if k == 0 { NoneYet(verify, p, q, approvals[..0]); }
    if |Approvers(verify, p, q, approvals[..k - 1])| >= q.threshold {
      j := FirstShown(verify, p, q, approvals, k - 1);
    } else {
      j := k;
    }
  }

  lemma ShownReached(verify: Verifier, p: Proposal, q: Quorum, approvals: seq<Approval>, k: nat)
    requires q.threshold >= 1 && ShownAt(verify, p, q, approvals, k)
    ensures |Count(verify, p, q, approvals).valid| >= q.threshold
  {
    hide Approvers, Attempts, Step, MaxVerifies, Count;
    var j := FirstShown(verify, p, q, approvals, k);
    var part, before := approvals[..j], approvals[..j - 1];
    assert part[..j - 1] == before && approvals[..k][..j] == part;
    AttemptsMonotone(verify, p, q, approvals[..k], j);
    AttemptsMonotone(verify, p, q, part, j - 1);
    CountedApproved(verify, p, q, before);
    SubsetSize(Count(verify, p, q, before).valid, Approvers(verify, p, q, before));
    CompleteOrSpent(verify, p, q, before);
    CountStep(verify, p, q, part);
    Stopped(verify, p, q, approvals, j);
  }

  /** For every list: a proposal is enacted exactly when some part of it shows a quorum before the budget is spent. */
  lemma EnactedExactly(verify: Verifier, p: Proposal, approvals: seq<Approval>, q: Quorum, now: int)
    ensures Outcome(verify, p, approvals, q, now).enacted <==>
            InWindow(p, now) && q.threshold >= 1 && ShownInTime(verify, p, q, approvals)
  {
    hide Approvers, Attempts, Count;
    if q.threshold >= 1 && |Count(verify, p, q, approvals).valid| >= q.threshold {
      var k := ReachedShown(verify, p, q, approvals);
    }
    if q.threshold >= 1 && ShownInTime(verify, p, q, approvals) {
      var k :| ShownAt(verify, p, q, approvals, k);
      ShownReached(verify, p, q, approvals, k);
    }
  }

  lemma {:induction false} AttemptsByMembers(verify: Verifier, p: Proposal, q: Quorum, approvals: seq<Approval>)
    ensures Attempts(verify, p, q, approvals) <= |ByMembers(q, approvals)|
    decreases |approvals|
  {
    hide Approvers;
    if |approvals| == 0 {
    } else {
      AttemptsByMembers(verify, p, q, approvals[..|approvals| - 1]);
    }
  }

  /** With at most as many member approvals as the budget allows, enactment depends only on who approved. */
  lemma EnactedWithinBudget(verify: Verifier, p: Proposal, approvals: seq<Approval>, q: Quorum, now: int)
    requires |ByMembers(q, approvals)| <= MaxVerifies(q)
    ensures Outcome(verify, p, approvals, q, now).enacted <==>
            InWindow(p, now) && 1 <= q.threshold <= |Approvers(verify, p, q, approvals)|
  {
    hide Approvers, Attempts, MaxVerifies, Outcome;
    EnactedExactly(verify, p, approvals, q, now);
    if Outcome(verify, p, approvals, q, now).enacted {
      EnactedHasQuorum(verify, p, approvals, q, now);
    } else if q.threshold <= |Approvers(verify, p, q, approvals)| {
      AttemptsByMembers(verify, p, q, approvals);
      assert approvals[..|approvals|] == approvals;
      assert ShownAt(verify, p, q, approvals, |approvals|);
    }
  }

  lemma {:induction false} JunkCounts(verify: Verifier, p: Proposal, q: Quorum, junk: seq<Approval>)
    requires |junk| <= MaxVerifies(q)
    requires forall i :: 0 <= i < |junk| ==> junk[i].signer in q.members && !VerifyApproval(verify, p, junk[i], q)
    ensures Count(verify, p, q, junk).valid == {} && (q.threshold >= 1 ==> Count(verify, p, q, junk).verifies == |junk|)
    decreases |junk|
  {
    if |junk| == 0 {
    } else {
      JunkCounts(verify, p, q, junk[..|junk| - 1]);
    }
  }

  /**
   The budget matters: enough invalid approvals in the names of members, ahead of a genuine quorum, refuse a
   proposal that a quorum of members approved in its window.
   */
  lemma BudgetSpent(verify: Verifier, p: Proposal, q: Quorum, junk: seq<Approval>, rest: seq<Approval>, now: int)
    requires InWindow(p, now) && 1 <= q.threshold <= |Approvers(verify, p, q, rest)| && |junk| == MaxVerifies(q)
    requires forall i :: 0 <= i < |junk| ==> junk[i].signer in q.members && !VerifyApproval(verify, p, junk[i], q)
    ensures q.threshold <= |Approvers(verify, p, q, junk + rest)| && !Outcome(verify, p, junk + rest, q, now).enacted
  {
    hide Approvers, VerifyApproval, MaxVerifies, Step;
    JunkCounts(verify, p, q, junk);
    assert (junk + rest)[..|junk|] == junk;
    Stopped(verify, p, q, junk + rest, |junk|);
    ApproversOrderIndependent(verify, p, q, junk + rest, rest + junk);
    assert (rest + junk)[..|rest|] == rest;
    ApproversMonotone(verify, p, q, rest + junk, |rest|);
    SubsetSize(Approvers(verify, p, q, rest), Approvers(verify, p, q, rest + junk));
  }

  // --- revocations ---

  class RevocationRegistry {
    var revoked: set<string>

    constructor ()
      ensures revoked == {}
    {
      revoked := {};
    }

    /** Revokes the target of an enacted revocation, and nothing else. */
    method EnactRevocation(verify: Verifier, p: Proposal, approvals: seq<Approval>, q: Quorum, now: int)
      returns (r: Result)
      modifies this
      ensures p.kind != "revoke" ==> r == Result(false, 0, [NotARevocation])
      ensures p.kind == "revoke" ==> r == Outcome(verify, p, approvals, q, now)
      ensures revoked == old(revoked) + if r.enacted then {p.target} else {}
    {
      if p.kind != "revoke" { return Result(false, 0, [NotARevocation]); }
      r := Enact(verify, p, approvals, q, now);
      if r.enacted { revoked := revoked + {p.target}; }
    }
  }
}
