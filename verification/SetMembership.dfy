/** Proofs that a commitment hides a member of a public set: a one-of-k disjunction over the same group. */
module SetMembership {
  import opened ByteStrings
  import opened Scalars
  import opened ZkRange

  const MAX_SET_SIZE: nat := 1024

  datatype MembershipProof = MembershipProof(c: seq<int>, s: seq<int>)

  /** The hash of a commitment, the reduced set and the first messages. */
  type SetOracle = (Pt, seq<int>, seq<Pt>) -> int

  function Reduced(members: seq<int>): seq<int> {
    seq(|members|, j requires 0 <= j < |members| => Mod(members[j]))
  }

  function Challenge(o: SetOracle, commitment: Pt, members: seq<int>, ts: seq<Pt>): int {
    Mod(o(commitment, Reduced(members), ts))
  }

  /** The point whose logarithm the prover knows if the commitment is to `member`. */
  function Branch(commitment: Pt, member: int): Pt {
    Sub(commitment, Mul(G, member))
  }

  /** The first message that makes the equation of a branch hold. */
  function FirstMessage(p: Pt, c: int, s: int): Pt {
    Sub(Mul(H, s), Mul(p, c))
  }

  /** The first place of a value, up to reduction. */
  function FindIndex(members: seq<int>, v: int, from: nat): (r: Option<nat>)
    requires from <= |members|
    ensures r.Some? ==> from <= r.value < |members| && Mod(members[r.value]) == v
    ensures r.None? ==> forall j :: from <= j < |members| ==> Mod(members[j]) != v
    decreases |members| - from
  {
    if from == |members| then None else if Mod(members[from]) == v then Some(from) else FindIndex(members, v, from + 1)
  }

  function Sum(c: seq<int>, k: nat): int
    requires k <= |c|
  {
    if k == 0 then 0 else Joined(Sum(c, k - 1), c[k - 1])
  }

  // --- proving ---

  /** The sum of the simulated challenges before position `k`, all but the one of position `t`. */
  function FakeSum(coins: Coins, t: nat, k: nat): int {
    if k == 0 then 0
    else if k - 1 == t then FakeSum(coins, t, k - 1)
    else Joined(FakeSum(coins, t, k - 1), Mod(coins.c(k - 1)))
  }

  function ProverMessage(commitment: Pt, members: seq<int>, coins: Coins, t: nat, j: nat): Pt
    requires j < |members|
  {
    if j == t then Mul(H, Mod(coins.k(t)))
        else FirstMessage(Branch(commitment, members[j]), Mod(coins.c(j)), Mod(coins.s(j)))
  }

  function ProverMessages(commitment: Pt, members: seq<int>, coins: Coins, t: nat): seq<Pt> {
    seq(|members|, j requires 0 <= j < |members| => ProverMessage(commitment, members, coins, t, j))
  }

  /** The challenge of the real branch. */
  function RealShare(o: SetOracle, coins: Coins, commitment: Pt, members: seq<int>, t: nat): int {
    Share(Challenge(o, commitment, members, ProverMessages(commitment, members, coins, t)),
          FakeSum(coins, t, |members|))
  }

  /** The proof for the member at position `t`. */
  function ProofAt(o: SetOracle, coins: Coins, commitment: Pt, r: int, members: seq<int>, t: nat): MembershipProof {
    var ct := RealShare(o, coins, commitment, members, t);
    MembershipProof(seq(|members|, j requires 0 <= j < |members| => if j == t then ct else Mod(coins.c(j))),
                    seq(|members|, j requires 0 <= j < |members| => if j == t then Weighted(Mod(coins.k(t)), ct, r)
                        else Mod(coins.s(j))))
  }

  function ProofOf(o: SetOracle, coins: Coins, value: int, r: int, members: seq<int>): Option<MembershipProof> {
    if members == [] || |members| > MAX_SET_SIZE then None
    else
      match FindIndex(members, Mod(value), 0)
      case None => None
      case Some(t) => Some(ProofAt(o, coins, Commit(value, r), r, members, t))
  }

  method ProveMembership(o: SetOracle, coins: Coins, value: int, r: int, members: seq<int>)
    returns (p: Option<MembershipProof>)
    ensures p == ProofOf(o, coins, value, r, members)
  {
    if |members| == 0 || |members| > MAX_SET_SIZE { return None; }
    var found := FindIndex(members, Mod(value), 0);
    if found.None? { return None; }
    var q := ProveAt(o, coins, Commit(value, r), r, members, found.value);
    p := Some(q);
  }

  /** Simulate every branch but the one at position `t`, and answer that one with the opening. */
  method ProveAt(o: SetOracle, coins: Coins, commitment: Pt, r: int, members: seq<int>, t: nat)
    returns (p: MembershipProof)
    requires t < |members|
    ensures p == ProofAt(o, coins, commitment, r, members, t)
  {
    hide FirstMessage, Branch, Mod, Mul, Share, Joined, Weighted, Challenge;
    var k := |members|;
    var c, s, ts := new int[k], new int[k], new Pt[k](_ => ZERO);
    var sumFake := 0;
    for j := 0 to k
      invariant sumFake == FakeSum(coins, t, j)
      invariant forall i :: 0 <= i < j && i != t ==> c[i] == Mod(coins.c(i))
      invariant forall i :: 0 <= i < j && i != t ==> s[i] == Mod(coins.s(i))
      invariant forall i :: 0 <= i < j && i != t ==> ts[i] == ProverMessage(commitment, members, coins, t, i)
    {
      if j == t { continue; }
      var cj, sj := Mod(coins.c(j)), Mod(coins.s(j));
      c[j], s[j], ts[j] := cj, sj, FirstMessage(Branch(commitment, members[j]), cj, sj);
      sumFake := Joined(sumFake, cj);
    }
    var kReal := Mod(coins.k(t));
    ts[t] := Mul(H, kReal);
    assert ts[..] == ProverMessages(commitment, members, coins, t);
    c[t] := Share(Challenge(o, commitment, members, ts[..]), sumFake);
    s[t] := Weighted(kReal, c[t], r);
    p := MembershipProof(c[..], s[..]);
  }

  // --- verifying ---

  function Messages(commitment: Pt, members: seq<int>, p: MembershipProof): seq<Pt>
    requires |p.c| == |p.s| == |members|
  {
    seq(|members|, j requires 0 <= j < |members| => FirstMessage(Branch(commitment, members[j]), p.c[j], p.s[j]))
  }

  predicate Accepts(o: SetOracle, commitment: Pt, members: seq<int>, p: MembershipProof) {
    && 0 < |members| <= MAX_SET_SIZE && |p.c| == |p.s| == |members|
    && Sum(p.c, |members|) == Challenge(o, commitment, members, Messages(commitment, members, p))
  }

  method VerifyMembership(o: SetOracle, commitment: Pt, members: seq<int>, p: MembershipProof) returns (ok: bool)
    ensures ok == Accepts(o, commitment, members, p)
  {
    hide FirstMessage, Branch, Joined, Challenge;
    var k := |members|;
    if k == 0 || k > MAX_SET_SIZE { return false; }
    if |p.c| != k || |p.s| != k { return false; }
    var ts, sumC := new Pt[k](_ => ZERO), 0;
    for j := 0 to k
      invariant sumC == Sum(p.c, j)
      invariant forall i :: 0 <= i < j ==> ts[i] == FirstMessage(Branch(commitment, members[i]), p.c[i], p.s[i])
    {
      ts[j] := FirstMessage(Branch(commitment, members[j]), p.c[j], p.s[j]);
      sumC := Joined(sumC, p.c[j]);
    }
    assert ts[..] == Messages(commitment, members, p);
    ok := sumC == Challenge(o, commitment, members, ts[..]);
  }

  // --- completeness ---

  lemma RealBranchIs(value: int, r: int, member: int)
    requires Mod(member) == Mod(value)
    ensures Branch(Commit(value, r), member) == Pt(0, Mod(r))
  {
    CommitIs(value, r);
    MulOfG(member);
    SubIs(Commit(value, r), Mul(G, member));
    ModMod(r);
  }

  /** The verifier recomputes the real first message. */
  lemma RealMessage(p: Pt, r: int, k: int, c: int)
    requires p == Pt(0, Mod(r)) && 0 <= k < L
    ensures FirstMessage(p, c, Weighted(k, c, r)) == Mul(H, k)
  {
    RealBranch(p, r, k, c);
    AddedAndTaken(Mul(H, k), Mul(p, c));
    MulOfH(k);
  }

  lemma AddedAndTaken(x: Pt, y: Pt)
    requires 0 <= x.g < L && 0 <= x.h < L
    ensures Sub(Add(x, y), y) == x
  {
    SubIs(Add(x, y), y);
    TakenBack(x.g, y.g);
    TakenBack(x.h, y.h);
  }

  lemma TakenBack(a: int, b: int)
    requires 0 <= a < L
    ensures Mod(Mod(a + b) - b) == a
  {
    ModAdd(a + b, -b);
    ModSmall(a);
  }

  /** The shares add up to the simulated sum, with the real one once its position is passed. */
  lemma {:induction false} SumIs(c: seq<int>, coins: Coins, t: nat, k: nat)
    requires k <= |c| && t < |c| && forall j :: 0 <= j < |c| && j != t ==> c[j] == Mod(coins.c(j))
    ensures Sum(c, k) == if k <= t then FakeSum(coins, t, k) else Joined(FakeSum(coins, t, k), c[t])
  {
    if k == 0 {
    } else {
      SumIs(c, coins, t, k - 1);
      if k - 1 > t { SwapLast(FakeSum(coins, t, k - 1), c[t], c[k - 1]); }
    }
  }

  lemma SwapLast(a: int, b: int, c: int)
    ensures Joined(Joined(a, b), c) == Joined(Joined(a, c), b)
  {
    ModAdd(a + b, c);
    ModAdd(a + c, b);
  }

  /** Every proof that the prover makes is accepted, for every oracle, opening and random tape. */
  lemma MembershipComplete(o: SetOracle, coins: Coins, value: int, r: int, members: seq<int>)
    requires 0 < |members| <= MAX_SET_SIZE
    requires exists j :: 0 <= j < |members| && Mod(members[j]) == Mod(value)
    ensures ProofOf(o, coins, value, r, members).Some?
    ensures Accepts(o, Commit(value, r), members, ProofOf(o, coins, value, r, members).value)
  {
    var t := FindIndex(members, Mod(value), 0).value;
    RealBranchIs(value, r, members[t]);
    ProofAtAccepted(o, coins, Commit(value, r), r, members, t);
  }

  lemma ProofAtAccepted(o: SetOracle, coins: Coins, commitment: Pt, r: int, members: seq<int>, t: nat)
    requires t < |members| <= MAX_SET_SIZE && Branch(commitment, members[t]) == Pt(0, Mod(r))
    ensures Accepts(o, commitment, members, ProofAt(o, coins, commitment, r, members, t))
  {
    var p := ProofAt(o, coins, commitment, r, members, t);
    MessagesRecomputed(o, coins, commitment, r, members, t);
    SumIs(p.c, coins, t, |members|);
    SharesAdd(Challenge(o, commitment, members, ProverMessages(commitment, members, coins, t)),
              FakeSum(coins, t, |members|));
  }

  lemma MessagesRecomputed(o: SetOracle, coins: Coins, commitment: Pt, r: int, members: seq<int>, t: nat)
    requires t < |members| && Branch(commitment, members[t]) == Pt(0, Mod(r))
    ensures Messages(commitment, members, ProofAt(o, coins, commitment, r, members, t))
            == ProverMessages(commitment, members, coins, t)
  {
    hide Mod, Mul, Branch, FirstMessage, Weighted, RealShare;
    var p := ProofAt(o, coins, commitment, r, members, t);
    forall j | 0 <= j < |members|
      ensures FirstMessage(Branch(commitment, members[j]), p.c[j], p.s[j])
              == ProverMessage(commitment, members, coins, t, j)
    {
      if j == t { RealMessage(Branch(commitment, members[t]), r, Mod(coins.k(t)), p.c[t]); }
    }
  }

  // --- soundness ---

  /** Different sums have different summands. */
  lemma {:induction false} SomeShareDiffers(c: seq<int>, c': seq<int>, k: nat) returns (j: nat)
    requires k <= |c| == |c'| && Sum(c, k) != Sum(c', k)
    ensures j < k && Mod(c[j]) != Mod(c'[j])
  {
    if Mod(c[k - 1]) != Mod(c'[k - 1]) {
      j := k - 1;
    } else {
      ModAdd(Sum(c, k - 1), c[k - 1]);
      ModAdd(Sum(c', k - 1), c'[k - 1]);
      j := SomeShareDiffers(c, c', k - 1);
    }
  }

  /** One first message with two answers to different challenges leaves no first coordinate. */
  lemma SameMessage(p: Pt, c: int, s: int, c': int, s': int)
    requires Prime(L) && Mod(c) != Mod(c') && FirstMessage(p, c, s) == FirstMessage(p, c', s')
    ensures Mod(p.g) == 0
  {
    MessageG(p, c, s);
    MessageG(p, c', s');
    Negate(p.g, c);
    Negate(p.g, c');
    ModDiff(-c, -c');
    ModDiff(c, c');
    ModDiff(c', c);
    SameAnswers(p.g, 0, -c, -c');
  }

  lemma MessageG(p: Pt, c: int, s: int)
    ensures FirstMessage(p, c, s).g == Mod(-(p.g * c))
  {
    MulOfH(s);
    MulIs(p, c);
    SubIs(Mul(H, s), Mul(p, c));
    ModSubtract(0, p.g * c);
  }

  lemma Negate(x: int, c: int)
    ensures -(x * c) == 0 + x * -c
  {
  }

  /** Two accepted proofs with the same first messages and different challenges. */
  ghost predicate Convinces(o: SetOracle, o': SetOracle, commitment: Pt, members: seq<int>,
                            p: MembershipProof, p': MembershipProof) {
    && Accepts(o, commitment, members, p) && Accepts(o', commitment, members, p')
    && Messages(commitment, members, p) == Messages(commitment, members, p')
    && Challenge(o, commitment, members, Messages(commitment, members, p))
       != Challenge(o', commitment, members, Messages(commitment, members, p'))
  }

  /**
   Two accepted proofs with the same first messages and different challenges force the committed value
   to be a member of the set.
   */
  lemma MembershipSound(o: SetOracle, o': SetOracle, commitment: Pt, members: seq<int>,
                        p: MembershipProof, p': MembershipProof) returns (j: nat)
    requires Prime(L) && Convinces(o, o', commitment, members, p, p')
    ensures j < |members| && Mod(commitment.g) == Mod(members[j])
  {
    j := SomeShareDiffers(p.c, p'.c, |members|);
    var b := Branch(commitment, members[j]);
    assert Messages(commitment, members, p)[j] == Messages(commitment, members, p')[j];
    SameMessage(b, p.c[j], p.s[j], p'.c[j], p'.s[j]);
    BranchG(commitment, members[j]);
  }

  lemma BranchG(commitment: Pt, member: int)
    ensures Mod(Branch(commitment, member).g) == 0 <==> Mod(commitment.g) == Mod(member)
  {
    MulOfG(member);
    SubIs(commitment, Mul(G, member));
    ModSubtract(commitment.g, member);
    ModMod(commitment.g - member);
    ModDiff(commitment.g, member);
  }

  ghost predicate Convincing(commitment: Pt, members: seq<int>) {
    exists o, o', p, p' :: Convinces(o, o', commitment, members, p, p')
  }

  /** What the prover makes for two constant oracles is accepted, with the same first messages. */
  lemma MembershipForks(coins: Coins, commitment: Pt, r: int, members: seq<int>, t: nat)
    requires t < |members| <= MAX_SET_SIZE && Branch(commitment, members[t]) == Pt(0, Mod(r))
    ensures var o, o' := (commitment, members, ts) => 0, (commitment, members, ts) => 1;
            Convinces(o, o', commitment, members, ProofAt(o, coins, commitment, r, members, t),
                      ProofAt(o', coins, commitment, r, members, t))
  {
    hide ProofAt, Branch, Messages, Sum;
    var o: SetOracle, o': SetOracle := (commitment, members, ts) => 0, (commitment, members, ts) => 1;
    ProofAtAccepted(o, coins, commitment, r, members, t);
    ProofAtAccepted(o', coins, commitment, r, members, t);
    MessagesRecomputed(o, coins, commitment, r, members, t);
    MessagesRecomputed(o', coins, commitment, r, members, t);
    ModSmall(0);
    ModSmall(1);
  }

  /** Exactly the commitments to members of the set are convincing. */
  lemma MembershipExactly(value: int, r: int, members: seq<int>)
    requires Prime(L)
    ensures Convincing(Commit(value, r), members) <==>
            |members| <= MAX_SET_SIZE && exists j :: 0 <= j < |members| && Mod(members[j]) == Mod(value)
  {
    hide Mod, Commit, Branch, ProofAt, Prime;
    if Convincing(Commit(value, r), members) {
      var o, o', p, p' :| Convinces(o, o', Commit(value, r), members, p, p');
      var j := MembershipSound(o, o', Commit(value, r), members, p, p');
      CommitIs(value, r);
      ModMod(value);
    } else if |members| <= MAX_SET_SIZE && exists j :: 0 <= j < |members| && Mod(members[j]) == Mod(value) {
      var t :| 0 <= t < |members| && Mod(members[t]) == Mod(value);
      RealBranchIs(value, r, members[t]);
      MembershipForks(Coins(i => 0, i => 0, i => 0, i => 0), Commit(value, r), r, members, t);
    }
  }
}
