/** One-time keys for hash-based signatures: an index is reserved before it is handed to the signing engine. */
module OneTimeKeys {
  import opened ByteStrings
  import opened Bits

  datatype KeyState = KeyState(height: nat, total: nat, next: nat)

  datatype Params = Params(multiTree: bool, family: string, height: int)

  /** Which ids and families name a multi-tree scheme. */
  type Policy = string -> bool

  predicate SingleTree(isMultiTree: Policy, params: Params, keyId: string) {
    !params.multiTree && !isMultiTree(keyId) && !isMultiTree(params.family)
  }

  /** The state of a key for this height: the stored one, or a fresh one; none if the height is refused. */
  function StateFor(keys: map<string, KeyState>, keyId: string, height: int): Option<KeyState> {
    if keyId in keys then if keys[keyId].height == height then Some(keys[keyId]) else None
    else if 0 <= height <= 32 then Some(KeyState(height, Pow2(height), 0))
    else None
  }

  /** The index that a reservation burns, if it is granted. */
  function Granted(keys: map<string, KeyState>, keyId: string, height: int): Option<nat> {
    match StateFor(keys, keyId, height)
    case None => None
    case Some(s) => if s.next >= s.total then None else Some(s.next)
  }

  function Reserved(keys: map<string, KeyState>, keyId: string, height: int): map<string, KeyState> {
    if Granted(keys, keyId, height).None? then keys
    else
      var s := StateFor(keys, keyId, height).value;
      keys[keyId := s.(next := s.next + 1)]
  }

  /** No key has handed out more than it has. */
  ghost predicate WithinTotal(keys: map<string, KeyState>) {
    forall k :: k in keys ==>
      keys[k].height <= 32 && keys[k].total == Pow2(keys[k].height) && 0 < keys[k].next <= keys[k].total
  }

  /** A key that is not stored meets every floor. */
  predicate MeetsFloor(keys: map<string, KeyState>, keyId: string, floor: int) {
    keyId in keys ==> keys[keyId].next >= floor
  }

  class SoftwareOtsStateStore {
    var keys: map<string, KeyState>

    constructor ()
      ensures keys == map[]
    {
      keys := map[];
    }

    /** Burns and returns the next index, or refuses and burns none. */
    method Reserve(keyId: string, height: int) returns (index: Option<nat>)
      requires WithinTotal(keys)
      modifies this
      ensures WithinTotal(keys)
      ensures index == Granted(old(keys), keyId, height) && keys == Reserved(old(keys), keyId, height)
    {
      var s: KeyState;
      if keyId !in keys {
        if height < 0 || height > 32 { return None; }
        s := KeyState(height, Pow2(height), 0);
      } else {
        s := keys[keyId];
        if s.height != height { return None; }
      }
      if s.next >= s.total { return None; }
      keys := keys[keyId := s.(next := s.next + 1)];
      index := Some(s.next);
    }

    /** Whether the stored counter is at least an external floor. */
    method AssertMonotonicFloor(keyId: string, externalFloor: int) returns (ok: bool)
      ensures ok <==> MeetsFloor(keys, keyId, externalFloor)
    {
      ok := keyId !in keys || keys[keyId].next >= externalFloor;
    }
  }

  /** A call of the provider: the engine's parameters at that moment, and the message. */
  datatype Call = Call(keyId: string, params: Params, message: Bytes)

  /** The raw primitive: key, index and message; none if it fails. */
  type Engine = (string, nat, Bytes) -> Option<Bytes>

  /**
   None for a scheme that policy refuses or an index that is not granted, else what the engine makes of that index.
   */
  function Signature(engine: Engine, isMultiTree: Policy, keys: map<string, KeyState>, keyId: string, params: Params,
                     message: Bytes): Option<Bytes> {
    if !SingleTree(isMultiTree, params, keyId) then None
    else
      match Granted(keys, keyId, params.height)
      case None => None
      case Some(index) => engine(keyId, index, message)
  }

  class HbsKeyProvider {
    const isMultiTree: Policy
    const store: SoftwareOtsStateStore
    ghost var calls: seq<Call>
    /** Every key and index that the engine was told to use. */
    ghost var handed: seq<(string, nat)>

    ghost predicate Valid()
      reads this, store
    {
      store.keys == After(isMultiTree, calls) && handed == Handed(isMultiTree, calls) && WithinTotal(store.keys)
    }

    constructor (isMultiTree: Policy, store: SoftwareOtsStateStore)
      requires store.keys == map[]
      ensures Valid() && this.isMultiTree == isMultiTree && this.store == store && calls == []
    {
      this.isMultiTree, this.store := isMultiTree, store;
      calls, handed := [], [];
    }

    /** Policy first, then the reservation, then the engine; a failed signature leaves the index burned. */
    method Sign(engine: Engine, keyId: string, params: Params, message: Bytes) returns (sig: Option<Bytes>)
      requires Valid()
      modifies this, store
      ensures Valid() && calls == old(calls) + [Call(keyId, params, message)]
      ensures sig == Signature(engine, isMultiTree, old(store.keys), keyId, params, message)
    {
      ghost var before := calls;
      calls := calls + [Call(keyId, params, message)];
      assert calls[..|calls| - 1] == before;
      if !SingleTree(isMultiTree, params, keyId) { return None; }
      var index := store.Reserve(keyId, params.height);
      if index.None? { return None; }
      handed := handed + [(keyId, index.value)];
      sig := engine(keyId, index.value, message);
    }
  }

  // --- every run ---

  function After(isMultiTree: Policy, calls: seq<Call>): map<string, KeyState> {
    if calls == [] then map[]
    else
      var keys, c := After(isMultiTree, calls[..|calls| - 1]), calls[|calls| - 1];
      if SingleTree(isMultiTree, c.params, c.keyId) then Reserved(keys, c.keyId, c.params.height) else keys
  }

  /** What the last call hands to the engine. */
  function HandedNow(isMultiTree: Policy, calls: seq<Call>): seq<(string, nat)>
    requires |calls| > 0
  {
    var keys, c := After(isMultiTree, calls[..|calls| - 1]), calls[|calls| - 1];
    if !SingleTree(isMultiTree, c.params, c.keyId) then []
    else
      match Granted(keys, c.keyId, c.params.height)
      case None => []
      case Some(i) => [(c.keyId, i)]
  }

  function Handed(isMultiTree: Policy, calls: seq<Call>): seq<(string, nat)> {
    if calls == [] then [] else Handed(isMultiTree, calls[..|calls| - 1]) + HandedNow(isMultiTree, calls)
  }

  /** The indices handed out for one key, in order. */
  function IndicesFor(handed: seq<(string, nat)>, keyId: string): seq<nat> {
    if handed == [] then []
    else
      var rest, last := IndicesFor(handed[..|handed| - 1], keyId), handed[|handed| - 1];
      if last.0 == keyId then rest + [last.1] else rest
  }

  function Next(keys: map<string, KeyState>, keyId: string): nat {
    if keyId in keys then keys[keyId].next else 0
  }

  /**
   Over every run, the indices handed out for a key are 0, 1, 2 and so on, without gaps or repeats, and within its
   tree.
   */
  lemma {:induction false} NeverReused(isMultiTree: Policy, calls: seq<Call>, keyId: string)
    ensures var keys, used := After(isMultiTree, calls), IndicesFor(Handed(isMultiTree, calls), keyId);
            && WithinTotal(keys)
            && |used| == Next(keys, keyId)
            && (forall i :: 0 <= i < |used| ==> used[i] == i)
            && (keyId in keys ==> |used| <= Pow2(keys[keyId].height))
    decreases |calls|
  {
    hide Reserved, Granted, IndicesFor, SingleTree, Pow2;
    if calls == [] {
      NoneHanded(keyId);
    } else {
      var n := |calls| - 1;
      var c := calls[n];
      NeverReused(isMultiTree, calls[..n], keyId);
      var keys, handed := After(isMultiTree, calls[..n]), Handed(isMultiTree, calls[..n]);
      KeepsWithinTotal(keys, c.keyId, c.params.height);
      NextAfter(keys, c.keyId, c.params.height, keyId);
      if HandedNow(isMultiTree, calls) == [] {
        assert handed + [] == handed;
      } else {
        IndicesAppend(handed, HandedNow(isMultiTree, calls)[0], keyId);
      }
    }
  }

  lemma NoneHanded(keyId: string)
    ensures IndicesFor([], keyId) == []
  {
  }

  lemma IndicesAppend(handed: seq<(string, nat)>, x: (string, nat), keyId: string)
    ensures IndicesFor(handed + [x], keyId) == IndicesFor(handed, keyId) + if x.0 == keyId then [x.1] else []
  {
    assert (handed + [x])[..|handed|] == handed;
  }

  /** A granted reservation burns the next index of its key, and touches no other key. */
  lemma NextAfter(keys: map<string, KeyState>, k: string, height: int, keyId: string)
    ensures var i := Granted(keys, k, height);
            && (i.Some? ==> i.value == Next(keys, k))
            && Next(Reserved(keys, k, height), keyId) == Next(keys, keyId) + if i.Some? && k == keyId then 1 else 0
  {
  }

  lemma KeepsWithinTotal(keys: map<string, KeyState>, keyId: string, height: int)
    requires WithinTotal(keys)
    ensures WithinTotal(Reserved(keys, keyId, height))
  {
  }

  /** A call that hands nothing to the engine burns nothing. */
  lemma RefusedBurnsNone(isMultiTree: Policy, calls: seq<Call>)
    requires |calls| > 0 && |HandedNow(isMultiTree, calls)| == 0
    ensures After(isMultiTree, calls) == After(isMultiTree, calls[..|calls| - 1])
  {
  }

  // --- rollback ---

  /** Counters never go down, and a stored key stays stored. */
  lemma {:induction false} CountersGrow(isMultiTree: Policy, calls: seq<Call>, k: nat, keyId: string)
    requires k <= |calls|
    ensures var before, after := After(isMultiTree, calls[..k]), After(isMultiTree, calls);
            (keyId in before ==> keyId in after) && Next(before, keyId) <= Next(after, keyId)
    decreases |calls|
  {
    hide Granted, SingleTree, StateFor;
    if k == |calls| {
      assert calls[..k] == calls;
    } else {
      var n := |calls| - 1;
      assert calls[..n][..k] == calls[..k];
      CountersGrow(isMultiTree, calls[..n], k, keyId);
      NextAfter(After(isMultiTree, calls[..n]), calls[n].keyId, calls[n].params.height, keyId);
    }
  }

  /** A floor that a stored key meets, it meets for the rest of the run. */
  lemma FloorStaysMet(isMultiTree: Policy, calls: seq<Call>, k: nat, keyId: string, floor: int)
    requires k <= |calls| && keyId in After(isMultiTree, calls[..k])
    requires MeetsFloor(After(isMultiTree, calls[..k]), keyId, floor)
    ensures keyId in After(isMultiTree, calls) && MeetsFloor(After(isMultiTree, calls), keyId, floor)
  {
    CountersGrow(isMultiTree, calls, k, keyId);
  }

  /**
   A store rolled back to an earlier point of a run, against the number of indices that the run used: the floor is met
   exactly when the next index is a new one, for a key that is still stored. For a key that the rollback lost the floor
   is always met, and the next index is a used one as soon as any was used.
   */
  lemma FloorDetectsReuse(isMultiTree: Policy, calls: seq<Call>, k: nat, keyId: string, height: int)
    requires k <= |calls| && Granted(After(isMultiTree, calls[..k]), keyId, height).Some?
    ensures var restored, used := After(isMultiTree, calls[..k]), IndicesFor(Handed(isMultiTree, calls), keyId);
            var index := Granted(restored, keyId, height).value;
            && (keyId in restored ==> (MeetsFloor(restored, keyId, |used|) <==> index !in used))
            && (keyId !in restored ==> MeetsFloor(restored, keyId, |used|) && (index in used <==> |used| > 0))
  {
    hide After, Handed, IndicesFor;
    var restored, used := After(isMultiTree, calls[..k]), IndicesFor(Handed(isMultiTree, calls), keyId);
    NeverReused(isMultiTree, calls, keyId);
    CountersGrow(isMultiTree, calls, k, keyId);
    NextAfter(restored, keyId, height, keyId);
    var index := Granted(restored, keyId, height).value;
    if index < |used| { assert used[index] == index; }
  }

  /** Without a rollback every floor of indices used so far is met. */
  lemma FloorMetByRun(isMultiTree: Policy, calls: seq<Call>, k: nat, keyId: string)
    requires k <= |calls|
    ensures MeetsFloor(After(isMultiTree, calls), keyId, |IndicesFor(Handed(isMultiTree, calls[..k]), keyId)|)
  {
    hide After, Handed, IndicesFor;
    NeverReused(isMultiTree, calls[..k], keyId);
    CountersGrow(isMultiTree, calls, k, keyId);
  }
}
