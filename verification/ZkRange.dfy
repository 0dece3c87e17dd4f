/**
 Range proofs over Pedersen commitments. A group element is its pair of coordinates over the two
 generators, so no relation between the generators is known; hashing is an oracle and the random draws
 are inputs.
 */
module ZkRange {
  import opened ByteStrings
  import opened Bits
  import opened Scalars

  datatype Pt = Pt(g: int, h: int)

  const ZERO: Pt := Pt(0, 0)
  const G: Pt := Pt(1, 0)
  const H: Pt := Pt(0, 1)

  function Add(p: Pt, q: Pt): Pt {
    Pt(Mod(p.g + q.g), Mod(p.h + q.h))
  }

  /** `p` added up `k` times. */
  function Multiple(p: Pt, k: nat): Pt {
    if k == 0 then ZERO else Add(Multiple(p, k - 1), p)
  }

  function Mul(p: Pt, s: int): Pt {
    Multiple(p, Mod(s))
  }

  function Neg(p: Pt): Pt {
    Pt(Mod(-p.g), Mod(-p.h))
  }

  function Sub(p: Pt, q: Pt): Pt {
    Add(p, Neg(q))
  }

  function Commit(value: int, r: int): Pt {
    Add(Mul(G, value), Mul(H, r))
  }

  /** Shift a commitment by a public value. */
  function ShiftCommitment(c: Pt, delta: int): Pt {
    Add(c, Mul(G, delta))
  }

  // --- coordinates ---

  lemma {:induction false} MultipleIs(p: Pt, k: nat)
    ensures Multiple(p, k) == Pt(Mod(p.g * k), Mod(p.h * k))
  {
    hide Mod;
    if k == 0 {
      NoTimes(p.g);
      NoTimes(p.h);
    } else {
      MultipleIs(p, k - 1);
      OneMore(p.g, k);
      OneMore(p.h, k);
    }
  }

  lemma NoTimes(x: int)
    ensures Mod(x * 0) == 0
  {
  }

  lemma OneMore(x: int, k: int)
    ensures Mod(Mod(x * (k - 1)) + x) == Mod(x * k)
  {
    hide Mod;
    ModAdd(x * (k - 1), x);
    assert x * (k - 1) + x == x * k;
  }

  lemma MulIs(p: Pt, s: int)
    ensures Mul(p, s) == Pt(Mod(p.g * s), Mod(p.h * s))
  {
    hide Mod;
    MultipleIs(p, Mod(s));
    ModMul(s, p.g);
    ModMul(s, p.h);
    Commute(s, p.g);
    Commute(s, p.h);
  }

  lemma MulOfH(s: int)
    ensures Mul(H, s) == Pt(0, Mod(s))
  {
    MulIs(H, s);
  }

  lemma MulOfG(s: int)
    ensures Mul(G, s) == Pt(Mod(s), 0)
  {
    MulIs(G, s);
  }

  /** Negation is the multiple by the order less one. */
  lemma NegIsMul(p: Pt, k: int)
    requires k == L - 1
    ensures Mul(p, k) == Neg(p)
  {
    MulIs(p, k);
    MinusOne(p.g, k);
    MinusOne(p.h, k);
  }

  lemma MinusOne(x: int, k: int)
    requires k == L - 1
    ensures Mod(x * k) == Mod(-x)
  {
    assert x * k == -x + x * L;
    ModOf(x * k, -x, x);
  }

  lemma SubIs(p: Pt, q: Pt)
    ensures Sub(p, q) == Pt(Mod(p.g - q.g), Mod(p.h - q.h))
  {
    ModAdd(p.g, -q.g);
    ModAdd(p.h, -q.h);
  }

  lemma CommitIs(value: int, r: int)
    ensures Commit(value, r) == Pt(Mod(value), Mod(r))
  {
    MulOfG(value);
    MulOfH(r);
  }

  // --- proofs of one bit ---

  datatype BitProof = BitProof(t0: Pt, t1: Pt, c0: int, c1: int, s0: int, s1: int)

  /** The two hash functions; a tag is a prefix and a position. */
  datatype Oracle = Oracle(
    statement: (int, nat, Pt, seq<Pt>, seq<Pt>) -> Bytes,
    challenge: (Bytes, string, nat, Pt, Pt, Pt, Pt, Pt) -> int)

  function BitChallenge(o: Oracle, stmt: Bytes, prefix: string, i: nat, ci: Pt, t0: Pt, t1: Pt): int {
    Mod(o.challenge(stmt, prefix, i, ci, ci, Sub(ci, G), t0, t1))
  }

  /** The random draws of a sub-proof, for each position. */
  datatype Coins = Coins(r: nat -> int, k: nat -> int, s: nat -> int, c: nat -> int)

  function Plus(a: int, x: int, w: int): int {
    a + x * w
  }

  /** The sum of `a` and the multiple of `x` by `w`, reduced. */
  function Weighted(a: int, x: int, w: int): int {
    Mod(Plus(a, x, w))
  }

  /** What is left of a challenge for the other branch. */
  function Share(c: int, fake: int): int {
    Mod(c - fake)
  }

  function Joined(c0: int, c1: int): int {
    Mod(c0 + c1)
  }

  function ProveBit(o: Oracle, coins: Coins, ci: Pt, b: int, ri: int, stmt: Bytes, prefix: string, i: nat): BitProof {
    var p0, p1 := ci, Sub(ci, G);
    var kReal, sFake, cFake := Mod(coins.k(i)), Mod(coins.s(i)), Mod(coins.c(i));
    var tReal := Mul(H, kReal);
    var tFake := Add(Mul(H, sFake), Neg(Mul(if b == 0 then p1 else p0, cFake)));
    var (t0, t1) := if b == 0 then (tReal, tFake) else (tFake, tReal);
    var cReal := Share(BitChallenge(o, stmt, prefix, i, ci, t0, t1), cFake);
    var sReal := Weighted(kReal, cReal, ri);
    if b == 0 then BitProof(t0, t1, cReal, cFake, sReal, sFake) else BitProof(t0, t1, cFake, cReal, sFake, sReal)
  }

  predicate VerifyBit(o: Oracle, ci: Pt, bp: BitProof, stmt: Bytes, prefix: string, i: nat) {
    && Joined(bp.c0, bp.c1) == BitChallenge(o, stmt, prefix, i, ci, bp.t0, bp.t1)
    && Mul(H, bp.s0) == Add(bp.t0, Mul(ci, bp.c0))
    && Mul(H, bp.s1) == Add(bp.t1, Mul(Sub(ci, G), bp.c1))
  }

  /** The branch with the known logarithm satisfies its equation. */
  lemma RealBranch(p: Pt, r: int, k: int, c: int)
    requires p == Pt(0, Mod(r))
    ensures Mul(H, Weighted(k, c, r)) == Add(Mul(H, k), Mul(p, c))
  {
    MulOfH(Weighted(k, c, r));
    MulOfH(k);
    MulIs(Pt(0, Mod(r)), c);
    Answer(k, r, c);
  }

  lemma Answer(k: int, r: int, c: int)
    ensures Mod(Weighted(k, c, r)) == Mod(Mod(k) + Mod(Mod(r) * c)) && Mod(0 + Mod(0 * c)) == 0
  {
    ModMul(r, c);
    ModAdd(k, r * c);
    ModMod(Plus(k, c, r));
    Commute(r, c);
  }

  /** The simulated branch satisfies its equation by construction. */
  lemma FakeBranch(p: Pt, s: int, c: int)
    ensures Mul(H, s) == Add(Add(Mul(H, s), Neg(Mul(p, c))), Mul(p, c))
  {
    MulOfH(s);
    var x, y := Mul(H, s), Mul(p, c);
    SubIs(x, y);
    BackAgain(x.g, y.g);
    BackAgain(x.h, y.h);
  }

  lemma BackAgain(a: int, b: int)
    requires 0 <= a < L
    ensures Mod(Mod(a - b) + b) == a
  {
    ModAdd(a - b, b);
    ModSmall(a);
  }

  /** The two shares of a challenge add up to it. */
  lemma SharesAdd(c: int, fake: int)
    requires 0 <= c < L
    ensures Joined(Share(c, fake), fake) == c && Joined(fake, Share(c, fake)) == c
  {
    hide Mod;
    ModAdd(c - fake, fake);
    ModAdd(fake, c - fake);
    ModSmall(c);
  }

  lemma ZeroComplete(o: Oracle, coins: Coins, ri: int, stmt: Bytes, prefix: string, i: nat)
    ensures VerifyBit(o, Commit(0, ri), ProveBit(o, coins, Commit(0, ri), 0, ri, stmt, prefix, i), stmt, prefix, i)
  {
    var ci := Commit(0, ri);
    CommitIs(0, ri);
    var bp := ProveBit(o, coins, ci, 0, ri, stmt, prefix, i);
    SharesAdd(BitChallenge(o, stmt, prefix, i, ci, bp.t0, bp.t1), Mod(coins.c(i)));
    RealBranch(ci, ri, Mod(coins.k(i)), bp.c0);
    FakeBranch(Sub(ci, G), Mod(coins.s(i)), Mod(coins.c(i)));
  }

  lemma OneComplete(o: Oracle, coins: Coins, ri: int, stmt: Bytes, prefix: string, i: nat)
    ensures VerifyBit(o, Commit(1, ri), ProveBit(o, coins, Commit(1, ri), 1, ri, stmt, prefix, i), stmt, prefix, i)
  {
    var ci := Commit(1, ri);
    OneLessG(ri);
    var bp := ProveBit(o, coins, ci, 1, ri, stmt, prefix, i);
    SharesAdd(BitChallenge(o, stmt, prefix, i, ci, bp.t0, bp.t1), Mod(coins.c(i)));
    RealBranch(Sub(ci, G), ri, Mod(coins.k(i)), bp.c1);
    FakeBranch(ci, Mod(coins.s(i)), Mod(coins.c(i)));
  }

  lemma OneLessG(ri: int)
    ensures Sub(Commit(1, ri), G) == Pt(0, Mod(ri))
  {
    var c := Commit(1, ri);
    CommitIs(1, ri);
    ModSmall(1);
    SubIs(c, G);
    ModSmall(0);
    ModSmall(c.h);
  }

  /** Every proof of a committed bit is accepted. */
  lemma BitComplete(o: Oracle, coins: Coins, b: int, ri: int, stmt: Bytes, prefix: string, i: nat)
    requires b == 0 || b == 1
    ensures VerifyBit(o, Commit(b, ri), ProveBit(o, coins, Commit(b, ri), b, ri, stmt, prefix, i), stmt, prefix, i)
  {
    if b == 0 { ZeroComplete(o, coins, ri, stmt, prefix, i); } else { OneComplete(o, coins, ri, stmt, prefix, i); }
  }

  /** Two answers to different challenges of one branch leave no first coordinate. */
  lemma BranchSound(p: Pt, t: Pt, c: int, s: int, c': int, s': int)
    requires Prime(L) && Mod(c) != Mod(c')
    requires Mul(H, s) == Add(t, Mul(p, c)) && Mul(H, s') == Add(t, Mul(p, c'))
    ensures Mod(p.g) == 0
  {
    AnswerG(p, t, c, s);
    AnswerG(p, t, c', s');
    SameAnswers(p.g, t.g, c, c');
  }

  lemma AnswerG(p: Pt, t: Pt, c: int, s: int)
    requires Mul(H, s) == Add(t, Mul(p, c))
    ensures Mod(t.g + p.g * c) == 0
  {
    MulOfH(s);
    MulIs(p, c);
    ModAdd(t.g, p.g * c);
  }

  lemma SameAnswers(x: int, t: int, c: int, c': int)
    requires Prime(L) && Mod(c) != Mod(c') && Mod(t + x * c) == Mod(t + x * c')
    ensures Mod(x) == 0
  {
    ModDiff(t + x * c, t + x * c');
    Factor(x, t, c, c');
    ModDiff(c, c');
    NoZeroDivisors(c - c', x);
  }

  lemma Factor(x: int, t: int, c: int, c': int)
    ensures (t + x * c) - (t + x * c') == (c - c') * x
  {
  }

  /** Two accepted answers to different challenges with the same first message: the commitment is to a bit. */
  lemma BitSound(o: Oracle, o': Oracle, ci: Pt, bp: BitProof, bp': BitProof, stmt: Bytes, stmt': Bytes, prefix: string,
                 i: nat)
    requires Prime(L) && bp.t0 == bp'.t0 && bp.t1 == bp'.t1
    requires VerifyBit(o, ci, bp, stmt, prefix, i) && VerifyBit(o', ci, bp', stmt', prefix, i)
    requires BitChallenge(o, stmt, prefix, i, ci, bp.t0, bp.t1) != BitChallenge(o', stmt', prefix, i, ci, bp.t0, bp.t1)
    ensures Mod(ci.g) == 0 || Mod(ci.g) == 1
  {
    if Mod(bp.c0) != Mod(bp'.c0) {
      BranchSound(ci, bp.t0, bp.c0, bp.s0, bp'.c0, bp'.s0);
    } else {
      ModAdd(bp.c0, bp.c1);
      ModAdd(bp'.c0, bp'.c1);
      BranchSound(Sub(ci, G), bp.t1, bp.c1, bp.s1, bp'.c1, bp'.s1);
      SubIs(ci, G);
      ModDiff(ci.g, 1);
    }
  }

  // --- proofs of a range ---

  datatype SubProof = SubProof(commitments: seq<Pt>, bits: seq<BitProof>)

  datatype RangeProof = RangeProof(n: int, amount: SubProof, diff: SubProof)

  function BitAt(value: nat, i: nat): int {
    Shr(value, i) % 2
  }

  /** The weighted sum of the first `k` random blindings. */
  function Partial(coins: Coins, k: nat): int {
    if k == 0 then 0 else Weighted(Partial(coins, k - 1), Mod(coins.r(k - 1)), Pow2(k - 1))
  }

  /** The last blinding makes the weighted sum come out as `rand`. */
  ghost function Blinding(coins: Coins, rand: int, n: nat, i: nat): int
    requires i < n
  {
    if i < n - 1 then Mod(coins.r(i)) else Times(Mod(rand) - Partial(coins, n - 1), Inverse(Pow2(n - 1)))
  }

  ghost function BitCommitments(value: nat, rand: int, coins: Coins, n: nat): seq<Pt> {
    seq(n, i requires 0 <= i < n => Commit(BitAt(value, i), Blinding(coins, rand, n, i)))
  }

  /** The blindings of the bit commitments. */
  method DrawBlindings(rand: int, coins: Coins, n: nat) returns (r: seq<int>)
    requires n >= 1
    ensures |r| == n && forall i :: 0 <= i < n ==> r[i] == Blinding(coins, rand, n, i)
  {
    r := [];
    var partial, weight := 0, 1;
    for i := 0 to n - 1
      invariant |r| == i && weight == Pow2(i) && partial == Partial(coins, i)
      invariant forall j :: 0 <= j < i ==> r[j] == Mod(coins.r(j))
    {
      var ri := Mod(coins.r(i));
      r := r + [ri];
      partial := Weighted(partial, ri, weight);
      weight := 2 * weight;
    }
    var inv := ModPow(weight, L - 2, L);
    r := r + [Times(Mod(rand) - partial, inv)];
  }

  method BuildBits(value: nat, rand: int, coins: Coins, n: nat)
    returns (bits: seq<int>, r: seq<int>, commitments: seq<Pt>)
    requires n >= 1
    ensures |bits| == n && forall i :: 0 <= i < n ==> bits[i] == BitAt(value, i)
    ensures |r| == n && forall i :: 0 <= i < n ==> r[i] == Blinding(coins, rand, n, i)
    ensures commitments == BitCommitments(value, rand, coins, n)
  {
    hide Commit, Shr, Blinding, BitCommitments;
    r := DrawBlindings(rand, coins, n);
    bits, commitments := [], [];
    for i := 0 to n
      invariant |bits| == i && |commitments| == i
      invariant forall j :: 0 <= j < i ==> bits[j] == BitAt(value, j)
      invariant forall j :: 0 <= j < i ==> commitments[j] == Commit(BitAt(value, j), r[j])
    {
      var b := Shr(value, i) % 2;
      bits := bits + [b];
      commitments := commitments + [Commit(b, r[i])];
    }
    BitCommitmentsAre(value, rand, coins, n, commitments);
  }

  lemma BitCommitmentsAre(value: nat, rand: int, coins: Coins, n: nat, cs: seq<Pt>)
    requires |cs| == n && forall i :: 0 <= i < n ==> cs[i] == Commit(BitAt(value, i), Blinding(coins, rand, n, i))
    ensures cs == BitCommitments(value, rand, coins, n)
  {
    hide Commit, BitAt, Blinding;
  }

  ghost function SubProofOf(o: Oracle, value: nat, rand: int, coins: Coins, n: nat, stmt: Bytes,
                            prefix: string): SubProof {
    var cs := BitCommitments(value, rand, coins, n);
    SubProof(cs, seq(n, i requires 0 <= i < n =>
      ProveBit(o, coins, cs[i], BitAt(value, i), Blinding(coins, rand, n, i), stmt, prefix, i)))
  }

  method ProveSub(o: Oracle, ghost value: nat, ghost rand: int, coins: Coins, n: nat, bits: seq<int>, r: seq<int>,
                  commitments: seq<Pt>,
                  stmt: Bytes, prefix: string) returns (p: SubProof)
    requires |bits| == n && forall i :: 0 <= i < n ==> bits[i] == BitAt(value, i)
    requires |r| == n && forall i :: 0 <= i < n ==> r[i] == Blinding(coins, rand, n, i)
    requires commitments == BitCommitments(value, rand, coins, n)
    ensures p == SubProofOf(o, value, rand, coins, n, stmt, prefix)
  {
    p := SubProof(commitments, seq(n, i requires 0 <= i
                                   < n => ProveBit(o, coins, commitments[i], bits[i], r[i], stmt, prefix, i)));
  }

  /** The sum of the first `k` commitments, weighted by powers of two. */
  function Combined(cs: seq<Pt>, k: nat): Pt
    requires k <= |cs|
  {
    if k == 0 then ZERO else Add(Combined(cs, k - 1), Mul(cs[k - 1], Pow2(k - 1)))
  }

  /** The proofs of the first `k` bits are accepted. */
  predicate AcceptsBits(o: Oracle, p: SubProof, k: nat, stmt: Bytes, prefix: string)
    requires k <= |p.commitments| && k <= |p.bits|
  {
    k == 0 || (AcceptsBits(o, p, k - 1, stmt, prefix)
               && VerifyBit(o, p.commitments[k - 1], p.bits[k - 1], stmt, prefix, k - 1))
  }

  predicate AcceptsSub(o: Oracle, target: Pt, p: SubProof, n: nat, stmt: Bytes, prefix: string) {
    && |p.commitments| == n && |p.bits| == n
    && Combined(p.commitments, n) == target
    && AcceptsBits(o, p, n, stmt, prefix)
  }

  method VerifySub(o: Oracle, target: Pt, p: SubProof, n: nat, stmt: Bytes, prefix: string) returns (ok: bool)
    ensures ok == AcceptsSub(o, target, p, n, stmt, prefix)
  {
    if |p.commitments| != n || |p.bits| != n { return false; }
    var combined, weight := ZERO, 1;
    for i := 0 to n
      invariant weight == Pow2(i) && combined == Combined(p.commitments, i)
    {
      combined := Add(combined, Mul(p.commitments[i], weight));
      weight := 2 * weight;
    }
    if combined != target { return false; }
    for i := 0 to n
      invariant AcceptsBits(o, p, i, stmt, prefix)
    {
      if !VerifyBit(o, p.commitments[i], p.bits[i], stmt, prefix, i) {
        BitNeeded(o, p, i, n, stmt, prefix);
        return false;
      }
    }
    ok := true;
  }

  lemma {:induction false} BitNeeded(o: Oracle, p: SubProof, i: nat, k: nat, stmt: Bytes, prefix: string)
    requires i < k <= |p.commitments| && k <= |p.bits|
    ensures AcceptsBits(o, p, k, stmt, prefix) ==> VerifyBit(o, p.commitments[i], p.bits[i], stmt, prefix, i)
  {
    if i >= k - 1 {
    } else {
      BitNeeded(o, p, i, k - 1, stmt, prefix);
    }
  }

  const MAX_BITS: int := 251

  predicate Provable(amount: int, threshold: int, n: int) {
    1 <= n <= MAX_BITS && 0 <= amount < Pow2(n) && 1 <= threshold <= Pow2(n) && amount < threshold
  }

  /** The proof that a commitment hides an amount below the threshold; none if it does not or is out of range. */
  ghost function ProofBelow(o: Oracle, coins: Coins, coins': Coins, amount: int, r: int, threshold: int,
                            n: int): Option<RangeProof> {
    if !Provable(amount, threshold, n) then None
    else
      var diff := threshold - 1 - amount;
      var stmt := o.statement(threshold, n, Commit(amount, r),
                              BitCommitments(amount, Mod(r), coins, n), BitCommitments(diff, Mod(-r), coins', n));
      Some(RangeProof(n, SubProofOf(o, amount, Mod(r), coins, n, stmt, "amount"),
                      SubProofOf(o, diff, Mod(-r), coins', n, stmt, "diff")))
  }

  /** Makes a proof exactly for the provable amounts, and only proofs that the verifier accepts. */
  method ProveBelow(o: Oracle, coins: Coins, coins': Coins, amount: int, r: int, threshold: int, n: int)
    returns (p: Option<RangeProof>)
    ensures p.Some? <==> Provable(amount, threshold, n)
    ensures p == ProofBelow(o, coins, coins', amount, r, threshold, n)
    ensures p.Some? && Prime(L) ==> AcceptsBelow(o, Commit(amount, r), threshold, p.value, n)
  {
    hide AcceptsSub, SubProofOf, BitCommitments, BitAt, Blinding, Commit, Mod, Sub, Pow2;
    if n < 1 || n > MAX_BITS { return None; }
    var bound := Pow2(n);
    if amount < 0 || amount >= bound { return None; }
    if threshold < 1 || threshold > bound { return None; }
    var diff := threshold - 1 - amount;
    if diff < 0 { return None; }
    var bits, rs, cs := BuildBits(amount, Mod(r), coins, n);
    var bits', rs', cs' := BuildBits(diff, Mod(-r), coins', n);
    var stmt := o.statement(threshold, n, Commit(amount, r), cs, cs');
    var a := ProveSub(o, amount, Mod(r), coins, n, bits, rs, cs, stmt, "amount");
    var d := ProveSub(o, diff, Mod(-r), coins', n, bits', rs', cs', stmt, "diff");
    p := Some(RangeProof(n, a, d));
    if Prime(L) { RangeComplete(o, coins, coins', amount, r, threshold, n, p.value); }
  }

  predicate AcceptsBelow(o: Oracle, commitment: Pt, threshold: int, p: RangeProof, n: int) {
    && 1 <= n <= MAX_BITS && p.n == n && 1 <= threshold <= Pow2(n)
    && var stmt := o.statement(threshold, n, commitment, p.amount.commitments, p.diff.commitments);
       && AcceptsSub(o, commitment, p.amount, n, stmt, "amount")
       && AcceptsSub(o, Sub(Mul(G, threshold - 1), commitment), p.diff, n, stmt, "diff")
  }

  method VerifyBelow(o: Oracle, commitment: Pt, threshold: int, p: RangeProof, n: int) returns (ok: bool)
    ensures ok == AcceptsBelow(o, commitment, threshold, p, n)
  {
    if n < 1 || n > MAX_BITS { return false; }
    if p.n != n { return false; }
    var bound := Pow2(n);
    if threshold < 1 || threshold > bound { return false; }
    var cDiff := Sub(Mul(G, threshold - 1), commitment);
    var stmt := o.statement(threshold, n, commitment, p.amount.commitments, p.diff.commitments);
    ok := VerifySub(o, commitment, p.amount, n, stmt, "amount");
    if !ok { return false; }
    ok := VerifySub(o, cDiff, p.diff, n, stmt, "diff");
  }

  // --- completeness ---

  /** The number that the low `k` bits of the value spell. */
  ghost function LowBits(value: nat, k: nat): int {
    if k == 0 then 0 else Plus(LowBits(value, k - 1), BitAt(value, k - 1), Pow2(k - 1))
  }

  lemma {:induction false} LowBitsAre(value: nat, k: nat)
    ensures value == Plus(LowBits(value, k), Shr(value, k), Pow2(k))
  {
    if k == 0 {
    } else {
      LowBitsAre(value, k - 1);
      ShrAdd(value, k - 1, 1);
      Halve(LowBits(value, k - 1), Shr(value, k - 1), Pow2(k - 1));
    }
  }

  lemma Halve(low: int, q: nat, w: nat)
    ensures Plus(low, q, w) == Plus(Plus(low, q % 2, w), q / 2, 2 * w)
  {
    assert q == 2 * (q / 2) + q % 2;
  }

  /** Position `i` commits to bit `i` with the blinding of the tape. */
  ghost predicate CommitsAt(cs: seq<Pt>, value: nat, coins: Coins, i: nat)
    requires i < |cs|
  {
    cs[i] == Commit(BitAt(value, i), Mod(coins.r(i)))
  }

  /** The combined bit commitments commit to the low bits of the value and the weighted blindings. */
  lemma {:induction false} CombinedIs(cs: seq<Pt>, value: nat, coins: Coins, k: nat)
    requires k <= |cs| && forall i :: 0 <= i < k ==> CommitsAt(cs, value, coins, i)
    ensures Combined(cs, k).g == Mod(LowBits(value, k)) && Combined(cs, k).h == Partial(coins, k)
  {
    if k == 0 {
    } else {
      CombinedIs(cs, value, coins, k - 1);
      assert CommitsAt(cs, value, coins, k - 1);
      CombineStep(Combined(cs, k - 1), LowBits(value, k - 1), BitAt(value, k - 1), Mod(coins.r(k - 1)), Pow2(k - 1));
    }
  }

  lemma CombineStep(p: Pt, g: int, b: int, r: int, w: int)
    requires p.g == Mod(g)
    ensures Add(p, Mul(Commit(b, r), w)).g == Weighted(g, b, w)
    ensures Add(p, Mul(Commit(b, r), w)).h == Weighted(p.h, r, w)
  {
    hide Mod, Commit, Mul;
    CommitIs(b, r);
    MulIs(Commit(b, r), w);
    ModMul(b, w);
    ModMul(r, w);
    ModAdd(g, b * w);
    ModAdd(p.h, r * w);
  }

  lemma LowBitsAll(value: nat, n: nat)
    requires value < Pow2(n)
    ensures LowBits(value, n) == value
  {
    LowBitsAre(value, n);
    ShrZero(value, n);
  }

  /** The weighted sum of all commitments is the commitment to the value with the given blinding. */
  lemma CombinedAll(value: nat, rand: int, coins: Coins, n: nat)
    requires Prime(L) && n >= 1 && value < Pow2(n)
    ensures Combined(BitCommitments(value, rand, coins, n), n).g == Mod(value)
    ensures Combined(BitCommitments(value, rand, coins, n), n).h == Mod(rand)
  {
    hide Mod, Mul, Commit, Combined, Weighted, LowBits, Prime;
    BitCommitmentsAt(value, rand, coins, n);
    CombinedLast(BitCommitments(value, rand, coins, n), value, coins, n, Blinding(coins, rand, n, n - 1));
    LowBitsAll(value, n);
    LastWeighted(coins, rand, n);
  }

  lemma BitCommitmentsAt(value: nat, rand: int, coins: Coins, n: nat)
    requires n >= 1
    ensures var cs := BitCommitments(value, rand, coins, n);
            && (forall i :: 0 <= i < n - 1 ==> CommitsAt(cs, value, coins, i))
            && cs[n - 1] == Commit(BitAt(value, n - 1), Blinding(coins, rand, n, n - 1))
  {
    hide Mod, Commit, Times, Inverse, Partial;
  }

  lemma CombinedLast(cs: seq<Pt>, value: nat, coins: Coins, n: nat, last: int)
    requires 1 <= n == |cs| && forall i :: 0 <= i < n - 1 ==> CommitsAt(cs, value, coins, i)
    requires cs[n - 1] == Commit(BitAt(value, n - 1), last)
    ensures Combined(cs, n).g == Mod(LowBits(value, n))
    ensures Combined(cs, n).h == Weighted(Partial(coins, n - 1), last, Pow2(n - 1))
  {
    hide Mod, Mul, Commit, Plus;
    CombinedIs(cs, value, coins, n - 1);
    CombineStep(Combined(cs, n - 1), LowBits(value, n - 1), BitAt(value, n - 1), last, Pow2(n - 1));
  }

  lemma LastWeighted(coins: Coins, rand: int, n: nat)
    requires Prime(L) && n >= 1
    ensures Weighted(Partial(coins, n - 1), Blinding(coins, rand, n, n - 1), Pow2(n - 1)) == Mod(rand)
  {
    LastBlinding(Partial(coins, n - 1), Mod(rand) - Partial(coins, n - 1), n - 1);
    ModMod(rand);
  }

  /** The last blinding completes the weighted sum. */
  lemma LastBlinding(partial: int, x: int, m: nat)
    requires Prime(L)
    ensures Weighted(partial, Times(x, Inverse(Pow2(m))), Pow2(m)) == Mod(partial + x)
  {
    DividedBack(x, m);
    WeightedAs(partial, Times(x, Inverse(Pow2(m))), Pow2(m), x);
  }

  lemma WeightedAs(a: int, x: int, w: int, y: int)
    requires Mod(x * w) == Mod(y)
    ensures Weighted(a, x, w) == Mod(a + y)
  {
    ModAdd(a, x * w);
    ModAdd(a, y);
  }

  lemma SubComplete(o: Oracle, target: Pt, value: nat, rand: int, coins: Coins, n: nat, stmt: Bytes, prefix: string)
    requires Prime(L) && n >= 1 && value < Pow2(n) && target == Pt(Mod(value), Mod(rand))
    ensures AcceptsSub(o, target, SubProofOf(o, value, rand, coins, n, stmt, prefix), n, stmt, prefix)
  {
    CombinedAll(value, rand, coins, n);
    BitsAccepted(o, value, rand, coins, n, n, stmt, prefix);
  }

  lemma {:induction false} BitsAccepted(o: Oracle, value: nat, rand: int, coins: Coins, n: nat, k: nat, stmt: Bytes,
                                        prefix: string)
    requires k <= n
    ensures AcceptsBits(o, SubProofOf(o, value, rand, coins, n, stmt, prefix), k, stmt, prefix)
  {
    hide VerifyBit, ProveBit, Commit, Mod, Blinding;
    if k == 0 {
    } else {
      BitsAccepted(o, value, rand, coins, n, k - 1, stmt, prefix);
      BitComplete(o, coins, BitAt(value, k - 1), Blinding(coins, rand, n, k - 1), stmt, prefix, k - 1);
    }
  }

  /** Every proof that the prover makes is accepted, for every oracle, opening and random tape. */
  lemma RangeComplete(o: Oracle, coins: Coins, coins': Coins, amount: int, r: int, threshold: int, n: int,
                      p: RangeProof)
    requires Prime(L) && ProofBelow(o, coins, coins', amount, r, threshold, n) == Some(p)
    ensures AcceptsBelow(o, Commit(amount, r), threshold, p, n)
  {
    var stmt := o.statement(threshold, n, Commit(amount, r), p.amount.commitments, p.diff.commitments);
    AmountAccepted(o, amount, r, coins, n, stmt);
    DiffAccepted(o, amount, r, threshold, coins', n, stmt);
  }

  lemma AmountAccepted(o: Oracle, amount: nat, r: int, coins: Coins, n: nat, stmt: Bytes)
    requires Prime(L) && n >= 1 && amount < Pow2(n)
    ensures AcceptsSub(o, Commit(amount, r), SubProofOf(o, amount, Mod(r), coins, n, stmt, "amount"), n, stmt, "amount")
  {
    CommitIs(amount, r);
    ModMod(r);
    SubComplete(o, Commit(amount, r), amount, Mod(r), coins, n, stmt, "amount");
  }

  lemma DiffAccepted(o: Oracle, amount: nat, r: int, threshold: int, coins: Coins, n: nat, stmt: Bytes)
    requires Prime(L) && n >= 1 && amount < threshold <= Pow2(n)
    ensures var diff := threshold - 1 - amount;
            AcceptsSub(o, Sub(Mul(G, threshold - 1), Commit(amount, r)),
                       SubProofOf(o, diff, Mod(-r), coins, n, stmt, "diff"), n, stmt, "diff")
  {
    hide AcceptsSub, SubProofOf;
    DiffCommitment(amount, r, threshold);
    SubComplete(o, Sub(Mul(G, threshold - 1), Commit(amount, r)), threshold - 1 - amount, Mod(-r), coins, n, stmt,
                "diff");
  }

  /** The verifier's commitment to the difference is one with the negated blinding. */
  lemma DiffCommitment(amount: int, r: int, threshold: int)
    ensures Sub(Mul(G, threshold - 1), Commit(amount, r)) == Pt(Mod(threshold - 1 - amount), Mod(Mod(-r)))
  {
    hide Mod, Mul, Commit, Sub;
    CommitIs(amount, r);
    DiffIs(threshold, Commit(amount, r));
    ModSubtract(threshold - 1, amount);
    ModSubtract(0, r);
    ModMod(-r);
  }

  lemma ModSubtract(a: int, b: int)
    ensures Mod(a - Mod(b)) == Mod(a - b)
  {
    var k := ModSplit(b);
    ModOf(a - Mod(b), a - b, k);
  }

  lemma DiffIs(threshold: int, c: Pt)
    ensures Sub(Mul(G, threshold - 1), c) == Pt(Mod(threshold - 1 - c.g), Mod(0 - c.h))
  {
    MulOfG(threshold - 1);
    SubIs(Mul(G, threshold - 1), c);
    ModAdd(threshold - 1, -c.g);
  }

  // --- soundness ---

  /** The same first messages met different challenges at every position. */
  ghost predicate Forked(o: Oracle, o': Oracle, p: SubProof, p': SubProof, stmt: Bytes, stmt': Bytes, prefix: string) {
    && p.commitments == p'.commitments && |p.bits| == |p'.bits| == |p.commitments|
    && forall i :: 0 <= i < |p.bits| ==>
         && p.bits[i].t0 == p'.bits[i].t0 && p.bits[i].t1 == p'.bits[i].t1
         && BitChallenge(o, stmt, prefix, i, p.commitments[i], p.bits[i].t0, p.bits[i].t1)
            != BitChallenge(o', stmt', prefix, i, p.commitments[i], p.bits[i].t0, p.bits[i].t1)
  }

  lemma AddBit(u: nat, c: Pt, w: nat)
    requires Mod(c.g) == 0 || Mod(c.g) == 1
    ensures Mod(Mod(u) + Mul(c, w).g) == Mod(u + Mod(c.g) * w)
    ensures 0 <= Mod(c.g) * w <= w
  {
    MulIs(c, w);
    ModMul(c.g, w);
    ModAdd(u, Mod(c.g) * w);
  }

  ghost predicate ForkedRange(o: Oracle, o': Oracle, commitment: Pt, threshold: int, p: RangeProof, p': RangeProof,
                              n: nat) {
    var stmt := o.statement(threshold, n, commitment, p.amount.commitments, p.diff.commitments);
    var stmt' := o'.statement(threshold, n, commitment, p'.amount.commitments, p'.diff.commitments);
    Forked(o, o', p.amount, p'.amount, stmt, stmt', "amount") && Forked(o, o', p.diff, p'.diff, stmt, stmt', "diff")
  }

  /** Commitments to bits combine to a commitment to a `k`-bit number. */
  lemma {:induction false} CombinedBits(cs: seq<Pt>, k: nat) returns (v: nat)
    requires k <= |cs| && forall i :: 0 <= i < k ==> Mod(cs[i].g) == 0 || Mod(cs[i].g) == 1
    ensures v < Pow2(k) && Combined(cs, k).g == Mod(v)
  {
    if k == 0 {
      v := 0;
    } else {
      var u := CombinedBits(cs, k - 1);
      AddBit(u, cs[k - 1], Pow2(k - 1));
      v := u + Mod(cs[k - 1].g) * Pow2(k - 1);
    }
  }

  lemma PowersBelowOrder(n: nat)
    requires n <= MAX_BITS
    ensures 2 * Pow2(n) <= L
  {
    Pow2Monotone(n, 251);
    Pow2Of251();
  }

  lemma Pow2Of251()
    ensures Pow2(251) == 0x800_0000000000000000_0000000000000000_0000000000000000_000000000000
  {
    assert Pow2(8) == 0x100;
    Pow2Sum(8, 8, 0x100, 0x100);
    Pow2Sum(16, 16, 0x1_0000, 0x1_0000);
    Pow2Sum(32, 32, 0x1_00000000, 0x1_00000000);
    Pow2Sum(64, 64, 0x1_0000000000000000, 0x1_0000000000000000);
    Pow2Sum(128, 64, 0x1_0000000000000000_0000000000000000, 0x1_0000000000000000);
    Pow2Sum(192, 32, 0x1_0000000000000000_0000000000000000_0000000000000000, 0x1_00000000);
    Pow2Sum(224, 16, 0x1_00000000_0000000000000000_0000000000000000_0000000000000000, 0x1_0000);
    Pow2Sum(240, 8, 0x1_000000000000_0000000000000000_0000000000000000_0000000000000000, 0x100);
    Pow2Sum(248, 3, 0x1_00000000000000_0000000000000000_0000000000000000_0000000000000000, 8);
  }

  lemma Pow2Sum(a: nat, b: nat, x: nat, y: nat)
    requires Pow2(a) == x && Pow2(b) == y
    ensures Pow2(a + b) == x * y
  {
    Pow2Add(a, b);
  }

  lemma {:induction false} Pow2Add(a: nat, b: nat)
    ensures Pow2(a + b) == Pow2(a) * Pow2(b)
  {
    if a == 0 {
    } else {
      Pow2Add(a - 1, b);
    }
  }

  lemma SubSound(o: Oracle, o': Oracle, target: Pt, p: SubProof, p': SubProof, n: nat, stmt: Bytes, stmt': Bytes,
                 prefix: string)
    requires Prime(L) && n <= MAX_BITS
    requires AcceptsSub(o, target, p, n, stmt, prefix) && AcceptsSub(o', target, p', n, stmt', prefix)
    requires Forked(o, o', p, p', stmt, stmt', prefix)
    ensures 0 <= target.g < Pow2(n)
  {
    forall i | 0 <= i < n
      ensures Mod(p.commitments[i].g) == 0 || Mod(p.commitments[i].g) == 1
    {
      BitNeeded(o, p, i, n, stmt, prefix);
      BitNeeded(o', p', i, n, stmt', prefix);
      BitSound(o, o', p.commitments[i], p.bits[i], p'.bits[i], stmt, stmt', prefix, i);
    }
    var v := CombinedBits(p.commitments, n);
    PowersBelowOrder(n);
    ModSmall(v);
  }

  /** An amount and its difference to the threshold both look like `n`-bit numbers modulo the order. */
  ghost predicate BothInRange(n: nat, amount: int, threshold: int) {
    0 <= amount < Pow2(n) && 1 <= threshold <= Pow2(n) && Mod(threshold - 1 - amount) < Pow2(n)
  }

  ghost predicate NoWrap(n: nat) {
    forall amount, threshold :: BothInRange(n, amount, threshold) ==> amount < threshold
  }

  /** The bound of 251 bits is exact: it is what keeps the two ranges from wrapping around the order. */
  lemma NoWrapExactly(n: nat)
    ensures NoWrap(n) <==> n <= MAX_BITS
  {
    if n <= MAX_BITS {
      PowersBelowOrder(n);
      forall amount, threshold | BothInRange(n, amount, threshold)
        ensures amount < threshold
      {
        InRangeBelow(Pow2(n), amount, threshold);
      }
    } else {
      Pow2Of251();
      assert Pow2(252) == 2 * Pow2(251);
      Pow2Monotone(252, n);
      Wraps(n);
    }
  }

  lemma InRangeBelow(bound: int, amount: int, threshold: int)
    requires 2 * bound <= L && 0 <= amount < bound && 1 <= threshold <= bound && Mod(threshold - 1 - amount) < bound
    ensures amount < threshold
  {
  }

  /** With 252 bits or more, an amount of about 2^125 passes for one below the threshold 1. */
  lemma Wraps(n: nat)
    requires Pow2(n) >= L - 27742317777372353535851937790883648493
    ensures !NoWrap(n)
  {
    var amount := 27742317777372353535851937790883648494;
    assert Mod(1 - 1 - amount) == L - amount;
    assert BothInRange(n, amount, 1);
  }

  /** Two accepted proofs with the same first messages and different challenges. */
  ghost predicate Convinces(o: Oracle, o': Oracle, commitment: Pt, threshold: int, p: RangeProof, p': RangeProof,
                            n: int) {
    && AcceptsBelow(o, commitment, threshold, p, n) && AcceptsBelow(o', commitment, threshold, p', n)
    && ForkedRange(o, o', commitment, threshold, p, p', n)
  }

  /**
   Soundness: a proof accepted twice with the same first messages and different challenges everywhere is
   for a commitment to an amount below the threshold, as integers.
   */
  lemma RangeSound(o: Oracle, o': Oracle, commitment: Pt, threshold: int, p: RangeProof, p': RangeProof, n: int)
    requires Prime(L)
    requires Convinces(o, o', commitment, threshold, p, p', n)
    ensures 0 <= commitment.g < threshold
  {
    var stmt := o.statement(threshold, n, commitment, p.amount.commitments, p.diff.commitments);
    var stmt' := o'.statement(threshold, n, commitment, p'.amount.commitments, p'.diff.commitments);
    var cDiff := Sub(Mul(G, threshold - 1), commitment);
    SubSound(o, o', commitment, p.amount, p'.amount, n, stmt, stmt', "amount");
    SubSound(o, o', cDiff, p.diff, p'.diff, n, stmt, stmt', "diff");
    DiffIs(threshold, commitment);
    assert BothInRange(n, commitment.g, threshold);
    NoWrapExactly(n);
  }

  // --- what can be convincing ---

  /** An oracle with one challenge for everything. */
  function Constant(c: int): Oracle {
    Oracle((threshold, n, commitment, cs, ds) => [], (stmt, prefix, i, ci, p0, p1, t0, t1) => c)
  }

  lemma ConstantChallenge(stmt: Bytes, prefix: string, i: nat, ci: Pt, t0: Pt, t1: Pt)
    ensures BitChallenge(Constant(0), stmt, prefix, i, ci, t0, t1) != BitChallenge(Constant(1), stmt, prefix, i, ci, t0,
            t1)
  {
    ModSmall(0);
    ModSmall(1);
  }

  /** The first messages of the prover do not depend on the oracle. */
  lemma SameFirst(o: Oracle, o': Oracle, coins: Coins, ci: Pt, b: int, ri: int, stmt: Bytes, prefix: string, i: nat)
    ensures var bp, bp' := ProveBit(o, coins, ci, b, ri, stmt, prefix, i),
            ProveBit(o', coins, ci, b, ri, stmt, prefix, i);
            bp.t0 == bp'.t0 && bp.t1 == bp'.t1
  {
    hide Mul, Mod, Add, Neg, Sub, Share, Weighted, BitChallenge;
  }

  lemma SubForks(value: nat, rand: int, coins: Coins, n: nat, stmt: Bytes, prefix: string)
    ensures Forked(Constant(0), Constant(1), SubProofOf(Constant(0), value, rand, coins, n, stmt, prefix),
                   SubProofOf(Constant(1), value, rand, coins, n, stmt, prefix), stmt, stmt, prefix)
  {
    hide ProveBit, BitAt, Blinding, BitChallenge, Constant, Commit;
    var cs := BitCommitments(value, rand, coins, n);
    var p := SubProofOf(Constant(0), value, rand, coins, n, stmt, prefix);
    var p' := SubProofOf(Constant(1), value, rand, coins, n, stmt, prefix);
    forall i | 0 <= i < n
      ensures p.bits[i].t0 == p'.bits[i].t0 && p.bits[i].t1 == p'.bits[i].t1
      ensures BitChallenge(Constant(0), stmt, prefix, i, p.commitments[i], p.bits[i].t0, p.bits[i].t1)
              != BitChallenge(Constant(1), stmt, prefix, i, p.commitments[i], p.bits[i].t0, p.bits[i].t1)
    {
      SameFirst(Constant(0), Constant(1), coins, cs[i], BitAt(value, i), Blinding(coins, rand, n, i), stmt, prefix, i);
      ConstantChallenge(stmt, prefix, i, cs[i], p.bits[i].t0, p.bits[i].t1);
    }
  }

  /** What the prover makes for the two constant oracles is accepted, with the same first messages. */
  lemma RangeForks(coins: Coins, coins': Coins, amount: int, r: int, threshold: int, n: int)
    requires Prime(L) && Provable(amount, threshold, n)
    ensures var p, p' := ProofBelow(Constant(0), coins, coins', amount, r, threshold, n),
                         ProofBelow(Constant(1), coins, coins', amount, r, threshold, n);
            && p.Some? && p'.Some?
            && Convinces(Constant(0), Constant(1), Commit(amount, r), threshold, p.value, p'.value, n)
  {
    hide AcceptsBelow, Forked, SubProofOf, Commit, BitCommitments;
    var p := ProofBelow(Constant(0), coins, coins', amount, r, threshold, n).value;
    var p' := ProofBelow(Constant(1), coins, coins', amount, r, threshold, n).value;
    RangeComplete(Constant(0), coins, coins', amount, r, threshold, n, p);
    RangeComplete(Constant(1), coins, coins', amount, r, threshold, n, p');
    SubForks(amount, Mod(r), coins, n, [], "amount");
    SubForks(threshold - 1 - amount, Mod(-r), coins', n, [], "diff");
  }

  /** A commitment can be shown to be below the threshold, twice and with different challenges. */
  ghost predicate Convincing(commitment: Pt, threshold: int, n: int) {
    exists o, o', p, p' :: Convinces(o, o', commitment, threshold, p, p', n)
  }

  /** Exactly the commitments to amounts below the threshold are convincing. */
  lemma RangeExactly(amount: int, r: int, threshold: int, n: int)
    requires Prime(L)
    ensures Convincing(Commit(amount, r), threshold, n) <==>
            1 <= n <= MAX_BITS && 1 <= threshold <= Pow2(n) && Mod(amount) < threshold
  {
    hide Mod, Pow2, ForkedRange, ProofBelow, Commit;
    CommitIs(amount, r);
    if Convincing(Commit(amount, r), threshold, n) {
      var o, o', p, p' :| Convinces(o, o', Commit(amount, r), threshold, p, p', n);
      RangeSound(o, o', Commit(amount, r), threshold, p, p', n);
    } else if 1 <= n <= MAX_BITS && 1 <= threshold <= Pow2(n) && Mod(amount) < threshold {
      SameCommit(amount, r);
      ModRange(amount);
      var coins := Coins(i => 0, i => 0, i => 0, i => 0);
      RangeForks(coins, coins, Mod(amount), r, threshold, n);
    }
  }

  lemma SameCommit(amount: int, r: int)
    ensures Commit(Mod(amount), r) == Commit(amount, r)
  {
    CommitIs(amount, r);
    CommitIs(Mod(amount), r);
    ModMod(amount);
  }

  lemma ModRange(x: int)
    ensures 0 <= Mod(x) < L
  {
  }
}
