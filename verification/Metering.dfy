/** Non-transferable credits: issuer grants and metered use, each once for its nonce or reference. */
module Metering {
  import opened ByteStrings
  import opened Collections

  datatype State = State(balances: map<string, int>, nonces: set<(string, string)>, refs: set<(string, string)>)

  datatype Op = Grant(account: string, amount: int, nonce: string) | Meter(account: string, cost: int, ref: string)

  function Balance(s: State, account: string): int {
    if account in s.balances then s.balances[account] else 0
  }

  /** The checks of an operation. */
  predicate Admitted(s: State, op: Op) {
    match op
    case Grant(account, amount, nonce) =>
      0 < amount <= MAX_SAFE && (account, nonce) !in s.nonces && Balance(s, account) <= MAX_SAFE - amount
    case Meter(account, cost, ref) =>
      0 <= cost <= MAX_SAFE && (account, ref) !in s.refs && Balance(s, account) >= cost
  }

  function Applied(s: State, op: Op): State {
    if !Admitted(s, op) then s
    else
      match op
      case Grant(account, amount, nonce) =>
        s.(balances := s.balances[account := Balance(s, account) + amount], nonces := s.nonces + {(account, nonce)})
      case Meter(account, cost, ref) =>
        s.(balances := s.balances[account := Balance(s, account) - cost], refs := s.refs + {(account, ref)})
  }

  function After(ops: seq<Op>): State {
    if ops == [] then State(map[], {}, {}) else Applied(After(ops[..|ops| - 1]), ops[|ops| - 1])
  }

  // --- the ledger object ---

  datatype CreditGrant = CreditGrant(account: string, amount: int, issuer: string, nonce: string, suite: string,
                                     sig: Bytes)

  datatype MeterRecord = MeterRecord(account: string, cost: int, ref: string)

  class MeteringLedger {
    const suite: string
    const issuer: string
    /** Suite, account, amount and nonce, signed by the issuer. */
    const sign: (string, string, int, string) -> Bytes
    var balances: map<string, int>
    var consumedNonces: set<(string, string)>
    var meteredRefs: set<(string, string)>
    ghost var ops: seq<Op>

    ghost predicate Valid()
      reads this
    {
      State(balances, consumedNonces, meteredRefs) == After(ops)
    }

    constructor (suite: string, issuer: string, sign: (string, string, int, string) -> Bytes)
      ensures Valid() && ops == []
    {
      this.suite, this.issuer, this.sign := suite, issuer, sign;
      balances, consumedNonces, meteredRefs, ops := map[], {}, {}, [];
    }

    function BalanceOf(account: string): int
      reads this
    {
      if account in balances then balances[account] else 0
    }

    method Grant(account: string, amount: int, nonce: string) returns (g: Option<CreditGrant>)
      requires Valid()
      modifies this
      ensures Valid() && ops == old(ops) + [Op.Grant(account, amount, nonce)]
      ensures g == if Admitted(After(old(ops)), Op.Grant(account, amount, nonce))
                   then Some(CreditGrant(account, amount, issuer, nonce, suite, sign(suite, account, amount, nonce)))
                       else None
    {
      ghost var before := ops;
      ops := ops + [Op.Grant(account, amount, nonce)];
      assert ops[..|ops| - 1] == before;
      if amount <= 0 || amount > MAX_SAFE { return None; }
      if (account, nonce) in consumedNonces { return None; }
      if BalanceOf(account) > MAX_SAFE - amount { return None; }
      consumedNonces := consumedNonces + {(account, nonce)};
      balances := balances[account := BalanceOf(account) + amount];
      g := Some(CreditGrant(account, amount, issuer, nonce, suite, sign(suite, account, amount, nonce)));
    }

    method Meter(account: string, cost: int, ref: string) returns (r: Option<MeterRecord>)
      requires Valid()
      modifies this
      ensures Valid() && ops == old(ops) + [Op.Meter(account, cost, ref)]
      ensures r == if Admitted(After(old(ops)), Op.Meter(account, cost, ref))
              then Some(MeterRecord(account, cost, ref)) else None
    {
      ghost var before := ops;
      ops := ops + [Op.Meter(account, cost, ref)];
      assert ops[..|ops| - 1] == before;
      if cost < 0 || cost > MAX_SAFE { return None; }
      if (account, ref) in meteredRefs { return None; }
      var bal := BalanceOf(account);
      if bal < cost { return None; }
      meteredRefs := meteredRefs + {(account, ref)};
      balances := balances[account := bal - cost];
      r := Some(MeterRecord(account, cost, ref));
    }
  }

  // --- every run ---

  /** Operation `i` of the run passed its checks. */
  ghost predicate AcceptedAt(ops: seq<Op>, i: nat)
    requires i < |ops|
  {
    Admitted(After(ops[..i]), ops[i])
  }

  /** The accepted grants of an account, added up. */
  ghost function Credits(ops: seq<Op>, account: string): int {
    if ops == [] then 0
    else
      var n := |ops| - 1;
      Credits(ops[..n], account) + if ops[n].Grant? && ops[n].account == account && AcceptedAt(ops, n)
          then ops[n].amount else 0
  }

  /** The accepted meterings of an account, added up. */
  ghost function Debits(ops: seq<Op>, account: string): int {
    if ops == [] then 0
    else
      var n := |ops| - 1;
      Debits(ops[..n], account) + if ops[n].Meter? && ops[n].account == account && AcceptedAt(ops, n) then ops[n].cost
          else 0
  }

  /** Credits are conserved: every balance is what was granted less what was metered, and stays a safe integer. */
  lemma {:induction false} Conservation(ops: seq<Op>, account: string)
    ensures Balance(After(ops), account) == Credits(ops, account) - Debits(ops, account)
    ensures 0 <= Balance(After(ops), account) <= MAX_SAFE
    decreases |ops|
  {
    if ops == [] {
    } else {
      Conservation(ops[..|ops| - 1], account);
    }
  }

  lemma {:induction false} MarksStay(ops: seq<Op>, k: nat)
    requires k <= |ops|
    ensures After(ops[..k]).nonces <= After(ops).nonces && After(ops[..k]).refs <= After(ops).refs
    decreases |ops|
  {
    if k == |ops| {
      assert ops[..k] == ops;
    } else {
      var n := |ops| - 1;
      assert ops[..n][..k] == ops[..k];
      MarksStay(ops[..n], k);
    }
  }

  /** A nonce credits an account at most once, and a reference debits it at most once. */
  lemma OnceOnly(ops: seq<Op>, i: nat, j: nat)
    requires i < j < |ops| && AcceptedAt(ops, i) && AcceptedAt(ops, j)
    ensures ops[i].Grant? && ops[j].Grant? && ops[i].account == ops[j].account ==> ops[i].nonce != ops[j].nonce
    ensures ops[i].Meter? && ops[j].Meter? && ops[i].account == ops[j].account ==> ops[i].ref != ops[j].ref
  {
    assert ops[..i + 1][..i] == ops[..i];
    assert ops[..j][..i + 1] == ops[..i + 1];
    MarksStay(ops[..j], i + 1);
  }
}
