/** Stake-weighted leader selection by a cumulative walk over the key-sorted validators. */
module Sortition {
  import opened ByteStrings
  import opened Collections
  import opened Stake

  /** The order of keys used for sorting. */
  predicate Before(a: string, b: string) {
    if b == [] then false
    else if a == [] then true
    else a[0] < b[0] || (a[0] == b[0] && Before(a[1..], b[1..]))
  }

  lemma {:induction false} BeforeTotal(a: string, b: string)
    ensures Before(a, b) || a == b || Before(b, a)
    ensures !(Before(a, b) && Before(b, a)) && !Before(a, a)
    decreases a
  {
    if a == [] {
    } else {
      BeforeTotal(a[1..], a[1..]);
    }
    if a != [] && b != [] && a[0] == b[0] {
      BeforeTotal(a[1..], b[1..]);
      if a[1..] == b[1..] { assert a == [a[0]] + a[1..] == b; }
    }
  }

  lemma {:induction false} BeforeTransitive(a: string, b: string, c: string)
    requires Before(a, b) && Before(b, c)
    ensures Before(a, c)
    decreases a
  {
    if a != [] && a[0] == b[0] == c[0] { BeforeTransitive(a[1..], b[1..], c[1..]); }
  }

  // --- sorting ---

  predicate NotAfter(v: Validator, w: Validator) {
    !Before(w.pubkey, v.pubkey)
  }

  function SortByKey(vs: seq<Validator>): seq<Validator> {
    Sort(NotAfter, vs)
  }

  lemma KeyOrder()
    ensures Ordering(NotAfter)
  {
    hide Before;
    forall v: Validator, w: Validator
      ensures NotAfter(v, w) || NotAfter(w, v)
    {
      BeforeTotal(v.pubkey, w.pubkey);
    }
    forall v: Validator, w: Validator, x: Validator | NotAfter(v, w) && NotAfter(w, x)
      ensures NotAfter(v, x)
    {
      if Before(x.pubkey, v.pubkey) {
        BeforeTotal(v.pubkey, w.pubkey);
        if v.pubkey != w.pubkey { BeforeTransitive(x.pubkey, v.pubkey, w.pubkey); }
      }
    }
  }

  lemma SortedByKey(vs: seq<Validator>)
    ensures Sorted(NotAfter, SortByKey(vs)) && multiset(SortByKey(vs)) == multiset(vs)
  {
    KeyOrder();
    SortSorts(NotAfter, vs);
  }

  // --- the walk ---

  /** The first key whose cumulative stake exceeds `x`. */
  function CumulativeWalk(sorted: seq<Validator>, x: int): Option<string> {
    if sorted == [] then None
    else if x < SafeStake(sorted[0].stake) then Some(sorted[0].pubkey)
    else CumulativeWalk(sorted[1..], x - SafeStake(sorted[0].stake))
  }

  /** The leader for draw `d`, or `None` for a set without stake. */
  function Leader(vs: seq<Validator>, d: nat): Option<string> {
    if TotalStake(vs) == 0 then None else CumulativeWalk(SortByKey(vs), d % TotalStake(vs))
  }

  /** The walk as the source runs it, with its last-entry fallback. */
  method SelectLeader(vs: seq<Validator>, d: nat) returns (leader: Option<string>)
    ensures leader == Leader(vs, d)
    ensures leader.Some? <==> TotalStake(vs) > 0
  {
    var total := TotalStake(vs);
    if total <= 0 { return None; }
    var x := d % total;
    var sorted := SortByKey(vs);
    SortedTotal(vs);
    var acc := 0;
    for i := 0 to |sorted|
      invariant acc <= x && acc + TotalStake(sorted[i..]) == total
      invariant CumulativeWalk(sorted[i..], x - acc) == CumulativeWalk(sorted, x)
    {
      assert sorted[i..][0] == sorted[i] && sorted[i..][1..] == sorted[i + 1..];
      acc := acc + SafeStake(sorted[i].stake);
      if x < acc { return Some(sorted[i].pubkey); }
    }
    // The fallback after the loop is not reached: the stakes add up to the total, which exceeds `x`.
    assert false;
  }

  /** The eligibility check of a revealed draw. */
  method VrfLeaderEligible(vs: seq<Validator>, proposer: string, beta: nat) returns (ok: bool)
    ensures ok <==> Leader(vs, beta) == Some(proposer)
  {
    var total := TotalStake(vs);
    if total <= 0 { return false; }
    var x := beta % total;
    var sorted := SortByKey(vs);
    var acc := 0;
    for i := 0 to |sorted|
      invariant acc <= x
      invariant CumulativeWalk(sorted[i..], x - acc) == CumulativeWalk(sorted, x)
    {
      assert sorted[i..][0] == sorted[i] && sorted[i..][1..] == sorted[i + 1..];
      acc := acc + SafeStake(sorted[i].stake);
      if x < acc { return sorted[i].pubkey == proposer; }
    }
    ok := false;
  }

  // --- what the walk selects, without sorting ---

  /** The stake of all entries whose key comes before `key`. */
  ghost function StakeBefore(vs: seq<Validator>, key: string): nat {
    if vs == [] then 0
    else (if Before(vs[0].pubkey, key) then SafeStake(vs[0].stake) else 0) + StakeBefore(vs[1..], key)
  }

  /** The stake of all entries with this key. */
  ghost function StakeAt(vs: seq<Validator>, key: string): nat {
    if vs == [] then 0
    else (if vs[0].pubkey == key then SafeStake(vs[0].stake) else 0) + StakeAt(vs[1..], key)
  }

  lemma {:induction false} RemoveOne(vs: seq<Validator>, i: nat, key: string)
    requires i < |vs|
    ensures var rest := vs[..i] + vs[i + 1..];
            && StakeBefore(vs, key) == StakeBefore([vs[i]] + rest, key)
            && StakeAt(vs, key) == StakeAt([vs[i]] + rest, key)
            && TotalStake(vs) == TotalStake([vs[i]] + rest)
    decreases i
  {
    var rest := vs[..i] + vs[i + 1..];
    assert ([vs[i]] + rest)[1..] == rest;
    if i == 0 {
      assert rest == vs[1..];
    } else {
      RemoveOne(vs[1..], i - 1, key);
      var rest' := vs[1..][..i - 1] + vs[1..][i..];
      assert rest == [vs[0]] + rest';
      assert ([vs[i]] + rest')[1..] == rest' && rest[1..] == rest';
    }
  }

  /** The sums do not depend on the order of the entries. */
  lemma {:induction false} SumsOfPermutation(vs: seq<Validator>, ws: seq<Validator>, key: string)
    requires multiset(vs) == multiset(ws)
    ensures StakeBefore(vs, key) == StakeBefore(ws, key)
    ensures StakeAt(vs, key) == StakeAt(ws, key)
    ensures TotalStake(vs) == TotalStake(ws)
    decreases |vs|
  {
    if vs == [] {
      assert |ws| == |multiset(ws)| == 0;
    } else {
      assert vs[0] in multiset(ws);
      var i :| 0 <= i < |ws| && ws[i] == vs[0];
      SameRest(vs, ws, i);
      RemoveOne(ws, i, key);
      var rest := ws[..i] + ws[i + 1..];
      assert ([ws[i]] + rest)[1..] == rest;
      SumsOfPermutation(vs[1..], rest, key);
    }
  }

  lemma SortedTotal(vs: seq<Validator>)
    ensures TotalStake(SortByKey(vs)) == TotalStake(vs)
  {
    SortedByKey(vs);
    SumsOfPermutation(SortByKey(vs), vs, "");
  }

  /** On a sorted list nothing before the smallest key has stake. */
  lemma {:induction false} NothingBefore(vs: seq<Validator>, key: string)
    requires forall i :: 0 <= i < |vs| ==> !Before(vs[i].pubkey, key)
    ensures StakeBefore(vs, key) == 0
  {
    if vs == [] {
    } else {
      NothingBefore(vs[1..], key);
    }
  }

  lemma {:induction false} WalkSelects(sorted: seq<Validator>, x: nat, key: string)
    requires Sorted(NotAfter, sorted)
    ensures CumulativeWalk(sorted, x) == Some(key) <==>
            StakeBefore(sorted, key) <= x < StakeBefore(sorted, key) + StakeAt(sorted, key)
  {
    if sorted == [] {
    } else {
      var v, rest := sorted[0], sorted[1..];
      var s := SafeStake(v.stake);
      forall i | 0 <= i < |rest|
        ensures !Before(rest[i].pubkey, v.pubkey)
      {
        assert sorted[i + 1] == rest[i];
      }
      assert Sorted(NotAfter, rest) by {
        forall i, j | 0 <= i < j < |rest|
          ensures !Before(rest[j].pubkey, rest[i].pubkey)
        {
          assert sorted[i + 1] == rest[i] && sorted[j + 1] == rest[j];
        }
      }
      BeforeTotal(v.pubkey, key);
      BeforeTotal(v.pubkey, v.pubkey);
      if x < s {
        if v.pubkey == key {
          NothingBefore(rest, key);
        } else if Before(key, v.pubkey) {
          KeyAbsent(sorted, key);
        }
      } else {
        WalkSelects(rest, x - s, key);
        if v.pubkey == key {
          NothingBefore(rest, key);
        } else if Before(key, v.pubkey) {
          KeyAbsent(sorted, key);
        }
      }
    }
  }

  /** A key smaller than the smallest one has no stake. */
  lemma {:induction false} KeyAbsent(sorted: seq<Validator>, key: string)
    requires forall i :: 0 <= i < |sorted| ==> !Before(sorted[i].pubkey, sorted[0].pubkey)
    requires sorted != [] && Before(key, sorted[0].pubkey)
    ensures StakeBefore(sorted, key) == 0 && StakeAt(sorted, key) == 0
  {
    forall i | 0 <= i < |sorted|
      ensures sorted[i].pubkey != key && !Before(sorted[i].pubkey, key)
    {
      BeforeTotal(key, sorted[0].pubkey);
      if Before(sorted[i].pubkey, key) { BeforeTransitive(sorted[i].pubkey, key, sorted[0].pubkey); }
    }
    NothingBefore(sorted, key);
    NothingAt(sorted, key);
  }

  lemma {:induction false} NothingAt(vs: seq<Validator>, key: string)
    requires forall i :: 0 <= i < |vs| ==> vs[i].pubkey != key
    ensures StakeAt(vs, key) == 0
  {
    if vs == [] {
    } else {
      NothingAt(vs[1..], key);
    }
  }

  /** Draw `x` below the total selects `key` exactly when it falls into the interval of `key`. */
  lemma LeaderInterval(vs: seq<Validator>, x: nat, key: string)
    requires x < TotalStake(vs)
    ensures Leader(vs, x) == Some(key) <==> StakeBefore(vs, key) <= x < StakeBefore(vs, key) + StakeAt(vs, key)
  {
    SortedByKey(vs);
    WalkSelects(SortByKey(vs), x, key);
    SumsOfPermutation(SortByKey(vs), vs, key);
    SmallMod(x, TotalStake(vs));
  }

  lemma SmallMod(x: nat, n: nat)
    requires x < n
    ensures x % n == x
  {
  }

  /** Every draw selects a leader of the set, and the same one in every order of the validators. */
  lemma LeaderOrderIndependent(vs: seq<Validator>, ws: seq<Validator>, d: nat)
    requires multiset(vs) == multiset(ws)
    ensures Leader(vs, d) == Leader(ws, d)
  {
    SumsOfPermutation(vs, ws, "");
    var total := TotalStake(vs);
    if total > 0 {
      var x := d % total;
      assert 0 <= x < total;
      SmallMod(x, total);
      LeaderReduces(vs, d);
      LeaderReduces(ws, d);
      LeaderExists(vs, x);
      var key := Leader(vs, x).value;
      LeaderInterval(vs, x, key);
      LeaderInterval(ws, x, key);
      SumsOfPermutation(vs, ws, key);
    }
  }

  lemma LeaderReduces(vs: seq<Validator>, d: nat)
    requires TotalStake(vs) > 0
    ensures Leader(vs, d) == Leader(vs, d % TotalStake(vs))
  {
    SmallMod(d % TotalStake(vs), TotalStake(vs));
  }

  /** There is a leader exactly if there is stake. */
  lemma LeaderExists(vs: seq<Validator>, d: nat)
    ensures Leader(vs, d).Some? <==> TotalStake(vs) > 0
  {
    SortedTotal(vs);
    if TotalStake(vs) > 0 { WalkEnds(SortByKey(vs), d % TotalStake(vs)); }
  }

  lemma {:induction false} WalkEnds(sorted: seq<Validator>, x: nat)
    requires x < TotalStake(sorted)
    ensures CumulativeWalk(sorted, x).Some?
  {
    if x >= SafeStake(sorted[0].stake) { WalkEnds(sorted[1..], x - SafeStake(sorted[0].stake)); }
  }

  /** The draws below the total that select `key`. */
  ghost function DrawsFor(vs: seq<Validator>, key: string): set<int> {
    set x | 0 <= x < TotalStake(vs) && Leader(vs, x) == Some(key)
  }

  ghost function Interval(lo: int, len: nat): (s: set<int>)
    ensures forall x :: x in s <==> lo <= x < lo + len
    ensures |s| == len
    decreases len
  {
    if len == 0 then {} else Interval(lo, len - 1) + {lo + len - 1}
  }

  /** Selection is exactly proportional: as many draws as stake units select a key. */
  lemma LeaderProportional(vs: seq<Validator>, key: string)
    ensures |DrawsFor(vs, key)| == StakeAt(vs, key)
    ensures WellFormed(vs) ==> |DrawsFor(vs, key)| == StakeOf(vs, key)
  {
    StakesFit(vs, key);
    forall x | 0 <= x < TotalStake(vs)
      ensures Leader(vs, x) == Some(key) <==> x in Interval(StakeBefore(vs, key), StakeAt(vs, key))
    {
      LeaderInterval(vs, x, key);
    }
    assert DrawsFor(vs, key) == Interval(StakeBefore(vs, key), StakeAt(vs, key));
    if WellFormed(vs) { OneEntryEach(vs, key); }
  }

  lemma {:induction false} StakesFit(vs: seq<Validator>, key: string)
    ensures StakeBefore(vs, key) + StakeAt(vs, key) <= TotalStake(vs)
  {
    if vs == [] {
    } else {
      StakesFit(vs[1..], key);
      BeforeTotal(key, key);
    }
  }

  lemma {:induction false} OneEntryEach(vs: seq<Validator>, key: string)
    requires WellFormed(vs)
    ensures StakeAt(vs, key) == StakeOf(vs, key)
  {
    if vs == [] {
    } else {
      if vs[0].pubkey == key {
        NothingAt(vs[1..], key);
      } else {
        OneEntryEach(vs[1..], key);
      }
    }
  }
}
