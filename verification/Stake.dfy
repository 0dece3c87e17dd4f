/** Validator sets and exact stake arithmetic. */
module Stake {
  import opened ByteStrings

  datatype Validator = Validator(pubkey: string, stake: int, vrfPubkey: Option<string>)

  datatype ValidatorSet = ValidatorSet(validators: seq<Validator>, epoch: nat)

  function SafeStake(stake: int): nat {
    if stake >= 0 then stake else 0
  }

  function TotalStake(vs: seq<Validator>): nat {
    if vs == [] then 0 else SafeStake(vs[0].stake) + TotalStake(vs[1..])
  }

  /** The stake of the first entry with this key; 0 for a key that is not in the set. */
  function StakeOf(vs: seq<Validator>, key: string): nat {
    if vs == [] then 0
    else if vs[0].pubkey == key then SafeStake(vs[0].stake)
    else StakeOf(vs[1..], key)
  }

  /** No negative stake and no key twice. */
  predicate WellFormed(vs: seq<Validator>) {
    && (forall i :: 0 <= i < |vs| ==> vs[i].stake >= 0)
    && (forall i, j :: 0 <= i < j < |vs| ==> vs[i].pubkey != vs[j].pubkey)
  }

  /** The first-entry index from keys to stakes. */
  method StakeIndex(vs: seq<Validator>) returns (m: map<string, nat>)
    ensures forall key :: (if key in m then m[key] else 0) == StakeOf(vs, key)
  {
    m := map[];
    var i := 0;
    while i < |vs|
      invariant i <= |vs|
      invariant forall key :: key in m ==> m[key] == StakeOf(vs, key)
      invariant forall key :: key !in m ==> StakeOf(vs[i..], key) == StakeOf(vs, key)
    {
      assert vs[i..][0] == vs[i] && vs[i..][1..] == vs[i + 1..];
      if vs[i].pubkey !in m { m := m[vs[i].pubkey := SafeStake(vs[i].stake)]; }
      i := i + 1;
    }
  }

  /** The stake of a set of keys, each counted once, at its first entry. */
  ghost function Weight(vs: seq<Validator>, keys: set<string>): nat {
    if vs == [] then 0
    else (if vs[0].pubkey in keys then SafeStake(vs[0].stake) else 0) + Weight(vs[1..], keys - {vs[0].pubkey})
  }

  lemma {:induction false} WeightEmpty(vs: seq<Validator>)
    ensures Weight(vs, {}) == 0
  {
    if vs == [] {
    } else {
      WeightEmpty(vs[1..]);
      assert {} - {vs[0].pubkey} == {};
    }
  }

  lemma {:induction false} WeightAdd(vs: seq<Validator>, keys: set<string>, key: string)
    requires key !in keys
    ensures Weight(vs, keys + {key}) == Weight(vs, keys) + StakeOf(vs, key)
  {
    if vs == [] {
    } else {
      var k := vs[0].pubkey;
      if k == key {
        assert keys + {key} - {k} == keys - {k};
      } else {
        assert keys + {key} - {k} == (keys - {k}) + {key};
        WeightAdd(vs[1..], keys - {k}, key);
      }
    }
  }

  lemma {:induction false} WeightMonotone(vs: seq<Validator>, a: set<string>, b: set<string>)
    requires a <= b
    ensures Weight(vs, a) <= Weight(vs, b) <= TotalStake(vs)
  {
    if vs == [] {
    } else {
      WeightMonotone(vs[1..], a - {vs[0].pubkey}, b - {vs[0].pubkey});
    }
  }

  /** Inclusion and exclusion: what two sets of keys have in common is what their union lacks. */
  lemma {:induction false} WeightUnion(vs: seq<Validator>, a: set<string>, b: set<string>)
    ensures Weight(vs, a) + Weight(vs, b) == Weight(vs, a + b) + Weight(vs, a * b)
  {
    if vs == [] {
    } else {
      var k := vs[0].pubkey;
      assert (a + b) - {k} == (a - {k}) + (b - {k});
      assert (a * b) - {k} == (a - {k}) * (b - {k});
      WeightUnion(vs[1..], a - {k}, b - {k});
    }
  }

  /** Two sets of keys share at least what both together have beyond the total. */
  lemma WeightIntersection(vs: seq<Validator>, a: set<string>, b: set<string>)
    ensures Weight(vs, a * b) >= Weight(vs, a) + Weight(vs, b) - TotalStake(vs)
  {
    WeightUnion(vs, a, b);
    WeightMonotone(vs, a + b, a + b);
  }

  /** A key with stake is a key of the set. */
  lemma {:induction false} StakedIsMember(vs: seq<Validator>, key: string) returns (i: nat)
    requires StakeOf(vs, key) > 0
    ensures i < |vs| && vs[i].pubkey == key
  {
    if vs[0].pubkey == key {
      i := 0;
    } else {
      i := StakedIsMember(vs[1..], key);
      i := i + 1;
    }
  }
}
