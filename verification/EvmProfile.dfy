/** The EVM profile: canonical validator sets, their keccak id, the attestation message, and finality. */
module EvmProfile {
  import opened ByteStrings
  import opened Collections
  import opened Stake
  import opened Counting
  import opened Bits

  const MAX_VALIDATORS: nat := 4096
  const MAX_ATTESTATIONS: nat := 8192

  /** Byte strings as numbers below 256. */
  type Octets = seq<int>

  type Word = w: Octets | |w| == 32 witness seq(32, _ => 0)

  // --- words ---

  /** The last `k` bytes of the big-endian notation. */
  function BigEndian(v: nat, k: nat): (b: Octets)
    ensures |b| == k
  {
    if k == 0 then [] else BigEndian(v / 256, k - 1) + [v % 256]
  }

  /** A 32-byte word; none for a number that does not fit. */
  function U256Of(x: int): Option<Word> {
    if x < 0 || x >= Pow2(256) then None else Some(BigEndian(x, 32))
  }

  method U256(x: int) returns (w: Option<Word>)
    ensures w == U256Of(x)
  {
    hide Pow2;
    if x < 0 || x >= Pow2(256) { return None; }
    var out := new int[32](_ => 0);
    var t := x;
    assert out[32..] == [];
    for i := 32 downto 0
      invariant t >= 0 && BigEndian(x, 32) == BigEndian(t, i) + out[i..]
    {
      ghost var after := out[i + 1..];
      out[i] := t % 256;
      t := t / 256;
      assert out[i..] == [out[i]] + after;
    }
    assert out[..] == [] + out[0..] == BigEndian(x, 32);
    w := Some(out[..]);
  }

  /** Words are injective up to their range. */
  lemma {:induction false} BigEndianInjective(a: nat, b: nat, k: nat)
    requires a < Pow2(8 * k) && b < Pow2(8 * k) && BigEndian(a, k) == BigEndian(b, k)
    ensures a == b
  {
    if k == 0 {
    } else {
      SplitConcat(BigEndian(a / 256, k - 1), [a % 256], BigEndian(b / 256, k - 1), [b % 256]);
      ByteShift(k);
      BigEndianInjective(a / 256, b / 256, k - 1);
    }
  }

  lemma ByteShift(k: nat)
    requires k > 0
    ensures Pow2(8 * k) == 256 * Pow2(8 * (k - 1))
  {
    hide Pow2;
    var e := 8 * (k - 1);
    assert 8 * k == e + 4 + 4;
    Shift4(e);
    Shift4(e + 4);
  }

  lemma Shift4(e: nat)
    ensures Pow2(e + 4) == 16 * Pow2(e)
  {
    assert Pow2(e + 2) == 4 * Pow2(e);
    assert Pow2(e + 4) == 4 * Pow2(e + 2);
  }

  lemma WordInjective(a: int, b: int)
    requires U256Of(a).Some? && U256Of(a) == U256Of(b)
    ensures a == b
  {
    BigEndianInjective(a, b, 32);
  }

  // --- the order of keys ---

  /** Lexicographic order of bytes; a proper prefix comes first. */
  predicate Less(a: Octets, b: Octets) {
    b != [] && (a == [] || a[0] < b[0] || (a[0] == b[0] && Less(a[1..], b[1..])))
  }

  /** The sign of the comparison: negative, zero or positive. */
  method CmpBytes(a: Octets, b: Octets) returns (c: int)
    ensures c < 0 <==> Less(a, b)
    ensures c == 0 <==> a == b
    ensures c > 0 <==> Less(b, a)
  {
    var n := if |a| < |b| then |a| else |b|;
    for i := 0 to n
      invariant a[..i] == b[..i]
      invariant Less(a, b) == Less(a[i..], b[i..]) && Less(b, a) == Less(b[i..], a[i..])
    {
      assert a[i..][1..] == a[i + 1..] && b[i..][1..] == b[i + 1..];
      if a[i] != b[i] { return if a[i] < b[i] then -1 else 1; }
    }
    if |a| == |b| { assert a == a[..n] == b[..n] == b; LessIrreflexive(a); }
    c := if |a| == |b| then 0 else if |a| < |b| then -1 else 1;
  }

  lemma {:induction false} LessIrreflexive(a: Octets)
    ensures !Less(a, a)
  {
    if a == [] {
    } else {
      LessIrreflexive(a[1..]);
    }
  }

  lemma {:induction false} LessTransitive(a: Octets, b: Octets, c: Octets)
    requires Less(a, b) && Less(b, c)
    ensures Less(a, c)
  {
    if a != [] && a[0] == b[0] && b[0] == c[0] { LessTransitive(a[1..], b[1..], c[1..]); }
  }

  lemma {:induction false} LessTotal(a: Octets, b: Octets)
    ensures Less(a, b) || a == b || Less(b, a)
  {
    if a != [] && b != [] && a[0] == b[0] {
      LessTotal(a[1..], b[1..]);
      assert a == [a[0]] + a[1..] && b == [b[0]] + b[1..];
    }
  }

  // --- canonical members ---

  /** What the id binds of a validator; an absent verifiable-random-function key counts as empty. */
  datatype CanonMember = CanonMember(pubkey: string, key: Octets, stake: nat, vrf: Octets)

  /** Decodes lower-case hex of even length; none for other strings. */
  type Hex = string -> Option<Octets>

  function CanonOf(hex: Hex, v: Validator): Option<CanonMember> {
    var key := hex(v.pubkey);
    if key.None? || key.value == [] || SafeStake(v.stake) >= Pow2(256) then None
    else if v.vrfPubkey.None? then Some(CanonMember(v.pubkey, key.value, SafeStake(v.stake), []))
    else
      var vrf := hex(v.vrfPubkey.value);
      if vrf.None? then None else Some(CanonMember(v.pubkey, key.value, SafeStake(v.stake), vrf.value))
  }

  function CanonAll(hex: Hex, vs: seq<Validator>): Option<seq<CanonMember>> {
    if vs == [] then Some([])
    else
      var first, rest := CanonOf(hex, vs[0]), CanonAll(hex, vs[1..]);
      if first.None? || rest.None? then None else Some([first.value] + rest.value)
  }

  ghost predicate Ascending(ms: seq<CanonMember>) {
    forall i, j :: 0 <= i < j < |ms| ==> Less(ms[i].key, ms[j].key)
  }

  predicate NotAfter(m: CanonMember, n: CanonMember) {
    !Less(n.key, m.key)
  }

  predicate NoNeighboursEqual(ms: seq<CanonMember>) {
    forall i :: 0 < i < |ms| ==> ms[i - 1].key != ms[i].key
  }

  /** The sorted members; none if one is malformed or two have the same key. */
  function CanonicalMembers(hex: Hex, set_: ValidatorSet): Option<seq<CanonMember>> {
    var all := CanonAll(hex, set_.validators);
    if all.None? || !NoNeighboursEqual(Sort(NotAfter, all.value)) then None else Some(Sort(NotAfter, all.value))
  }

  lemma KeyOrder()
    ensures Ordering(NotAfter)
  {
    hide Less;
    forall m: CanonMember, n: CanonMember
      ensures NotAfter(m, n) || NotAfter(n, m)
    {
      if Less(m.key, n.key) && Less(n.key, m.key) {
        LessTransitive(m.key, n.key, m.key);
        LessIrreflexive(m.key);
      }
    }
    forall m: CanonMember, n: CanonMember, k: CanonMember | NotAfter(m, n) && NotAfter(n, k)
      ensures NotAfter(m, k)
    {
      if Less(k.key, m.key) {
        LessTotal(m.key, n.key);
        if m.key != n.key { LessTransitive(k.key, m.key, n.key); }
      }
    }
  }

  /** Sorted members without equal neighbours ascend strictly. */
  lemma WeaklyAscending(ms: seq<CanonMember>)
    requires Sorted(NotAfter, ms)
    ensures NoNeighboursEqual(ms) <==> Ascending(ms)
  {
    if NoNeighboursEqual(ms) {
      forall i, j | 0 <= i < j < |ms|
        ensures Less(ms[i].key, ms[j].key)
      {
        StepUp(ms, i, j);
      }
    } else {
      var i :| 0 < i < |ms| && ms[i - 1].key == ms[i].key;
      LessIrreflexive(ms[i].key);
    }
  }

  lemma {:induction false} StepUp(ms: seq<CanonMember>, i: nat, j: nat)
    requires Sorted(NotAfter, ms) && NoNeighboursEqual(ms) && i < j < |ms|
    ensures Less(ms[i].key, ms[j].key)
    decreases j
  {
    LessTotal(ms[j - 1].key, ms[j].key);
    if i >= j - 1 {
    } else {
      StepUp(ms, i, j - 1);
      LessTransitive(ms[i].key, ms[j - 1].key, ms[j].key);
    }
  }

  lemma SameLeast(a: seq<CanonMember>, b: seq<CanonMember>)
    requires Ascending(a) && Ascending(b) && multiset(a) == multiset(b) && |a| > 0
    ensures |a| == |b| && a[0] == b[0]
  {
    hide Less;
    var i := Found(a, b);
    var j := Found(b, a);
    if i > 0 && j > 0 {
      LessTransitive(a[0].key, a[j].key, b[i].key);
      LessIrreflexive(a[0].key);
    }
  }

  /** There is only one strictly ascending arrangement. */
  lemma {:induction false} AscendingUnique(a: seq<CanonMember>, b: seq<CanonMember>)
    requires Ascending(a) && Ascending(b) && multiset(a) == multiset(b)
    ensures a == b
  {
    hide Less;
    if |a| == 0 {
      assert |b| == |multiset(b)| == 0;
    } else {
      SameLeast(a, b);
      SameRest(a, b, 0);
      AscendingUnique(a[1..], b[1..]);
      assert a == [a[0]] + a[1..] && b == [b[0]] + b[1..];
    }
  }

  /** The canonical members are the strictly ascending arrangement of the decoded ones. */
  lemma CanonicalIs(hex: Hex, set_: ValidatorSet)
    requires CanonAll(hex, set_.validators).Some?
    ensures var all, c := CanonAll(hex, set_.validators).value, CanonicalMembers(hex, set_);
            && (c.Some? ==> Ascending(c.value) && multiset(c.value) == multiset(all))
            && (forall ms :: Ascending(ms) && multiset(ms) == multiset(all) ==> c == Some(ms))
  {
    var all := CanonAll(hex, set_.validators).value;
    var sorted := Sort(NotAfter, all);
    KeyOrder();
    SortSorts(NotAfter, all);
    WeaklyAscending(sorted);
    forall ms | Ascending(ms) && multiset(ms) == multiset(all)
      ensures CanonicalMembers(hex, set_) == Some(ms)
    {
      if NoNeighboursEqual(sorted) { AscendingUnique(ms, sorted); } else { NoTwins(ms, sorted); }
    }
  }

  /** Two equal keys in a row exclude every strictly ascending arrangement. */
  lemma NoTwins(ms: seq<CanonMember>, sorted: seq<CanonMember>)
    requires Ascending(ms) && multiset(ms) == multiset(sorted)
    ensures NoNeighboursEqual(sorted)
  {
    if i :| 0 < i < |sorted| && sorted[i - 1].key == sorted[i].key {
      var x, y := sorted[i - 1], sorted[i];
      LessIrreflexive(x.key);
      assert sorted == sorted[..i - 1] + [x, y] + sorted[i + 1..];
      assert multiset{x, y} <= multiset(ms);
      TwoPlaces(ms, x, y);
    }
  }

  lemma TwoPlaces(ms: seq<CanonMember>, x: CanonMember, y: CanonMember)
    requires multiset{x, y} <= multiset(ms) && Ascending(ms)
    ensures Less(x.key, y.key) || Less(y.key, x.key)
  {
    assert multiset(ms)[x] >= 1;
    assert x in multiset(ms);
    var i :| 0 <= i < |ms| && ms[i] == x;
    var rest := ms[..i] + ms[i + 1..];
    CutOne(ms, i);
    assert multiset(rest)[y] >= 1;
    assert y in multiset(rest);
    var j :| 0 <= j < |rest| && rest[j] == y;
    var j' := if j < i then j else j + 1;
    assert ms[j'] == y;
  }

  /** The canonical members do not depend on the order of the validators. */
  lemma CanonicalOrderIndependent(hex: Hex, a: ValidatorSet, b: ValidatorSet)
    requires multiset(a.validators) == multiset(b.validators)
    ensures CanonicalMembers(hex, a) == CanonicalMembers(hex, b)
  {
    CanonAllElements(hex, a.validators);
    CanonAllElements(hex, b.validators);
    SameValidators(a.validators, b.validators);
    SameValidators(b.validators, a.validators);
    if CanonAll(hex, a.validators).Some? {
      CanonAllPermuted(hex, a.validators, b.validators);
      CanonicalIs(hex, a);
      CanonicalIs(hex, b);
    }
  }

  lemma SameValidators(a: seq<Validator>, b: seq<Validator>)
    requires multiset(a) == multiset(b)
    ensures forall v :: v in a ==> v in b
  {
    forall v | v in a
      ensures v in b
    {
      assert v in multiset(b);
    }
  }

  lemma {:induction false} CanonAllElements(hex: Hex, vs: seq<Validator>)
    ensures CanonAll(hex, vs).Some? <==> forall v :: v in vs ==> CanonOf(hex, v).Some?
  {
    if vs == [] {
    } else {
      CanonAllElements(hex, vs[1..]);
      assert vs == [vs[0]] + vs[1..];
    }
  }

  lemma {:induction false} CanonAllPermuted(hex: Hex, a: seq<Validator>, b: seq<Validator>)
    requires multiset(a) == multiset(b) && CanonAll(hex, a).Some? && CanonAll(hex, b).Some?
    ensures multiset(CanonAll(hex, a).value) == multiset(CanonAll(hex, b).value)
  {
    hide CanonOf;
    if a == [] {
      assert |b| == |multiset(b)| == |multiset(a)| == 0;
    } else {
      assert a[0] in multiset(b);
      var i :| 0 <= i < |b| && b[i] == a[0];
      var rest := b[..i] + b[i + 1..];
      SameRest(a, b, i);
      CanonAllRemove(hex, b, i);
      CanonAllPermuted(hex, a[1..], rest);
      Headed(CanonAll(hex, a).value, CanonOf(hex, a[0]).value, CanonAll(hex, a[1..]).value);
    }
  }

  lemma Headed<T>(all: seq<T>, head: T, rest: seq<T>)
    requires all == [head] + rest
    ensures multiset(all) == multiset(rest) + multiset{head}
  {
  }

  lemma {:induction false} CanonAllRemove(hex: Hex, b: seq<Validator>, i: nat)
    requires i < |b| && CanonAll(hex, b).Some?
    ensures CanonAll(hex, b[..i] + b[i + 1..]).Some? && CanonOf(hex, b[i]).Some?
    ensures multiset(CanonAll(hex, b).value) == multiset(CanonAll(hex, b[..i] + b[i + 1..]).value)
            + multiset{CanonOf(hex, b[i]).value}
  {
    hide CanonOf;
    if i == 0 {
      assert b[..0] + b[1..] == b[1..];
      Headed(CanonAll(hex, b).value, CanonOf(hex, b[0]).value, CanonAll(hex, b[1..]).value);
    } else {
      var rest, tail := b[..i] + b[i + 1..], b[1..][..i - 1] + b[1..][i..];
      CanonAllRemove(hex, b[1..], i - 1);
      assert rest[0] == b[0] && rest[1..] == tail;
      var head := CanonOf(hex, b[0]).value;
      Headed(CanonAll(hex, b).value, head, CanonAll(hex, b[1..]).value);
      Headed(CanonAll(hex, rest).value, head, CanonAll(hex, tail).value);
    }
  }

  // --- the id of a set ---

  /** The keccak hash is a parameter; the tags are byte strings of other lengths than the hashed records. */
  datatype Keccak = Keccak(hash: Octets -> Word)

  lemma SameOrCollision(k: Keccak, inputs: set<Octets>, x: Octets, y: Octets)
    requires x in inputs && y in inputs && k.hash(x) == k.hash(y)
    ensures x == y || Collision(k.hash, inputs)
  {
    assert x == y || Collides(k.hash, inputs, x, y);
  }

  /** The record that the fold hashes for a member. */
  function Record(k: Keccak, h: Word, m: CanonMember): Octets {
    var a: Octets, b: Octets, c: Octets, d: Octets := h, k.hash(m.key), BigEndian(m.stake, 32), k.hash(m.vrf);
    a + b + c + d
  }

  function Fold(k: Keccak, tag: Octets, ms: seq<CanonMember>): Word {
    if ms == [] then k.hash(tag) else k.hash(Record(k, Fold(k, tag, ms[..|ms| - 1]), ms[|ms| - 1]))
  }

  function FinalRecord(k: Keccak, tag: Octets, ms: seq<CanonMember>, epoch: nat): Octets {
    var a: Octets, b: Octets := Fold(k, tag, ms), BigEndian(epoch, 32);
    a + b
  }

  /** The id of a set; none if the set or its epoch is malformed. */
  function SetId(k: Keccak, hex: Hex, tag: Octets, set_: ValidatorSet): Option<Word> {
    var ms := CanonicalMembers(hex, set_);
    if ms.None? || set_.epoch > MAX_SAFE then None else Some(k.hash(FinalRecord(k, tag, ms.value, set_.epoch)))
  }

  method EvmSetId(k: Keccak, hex: Hex, tag: Octets, set_: ValidatorSet) returns (id: Option<Word>)
    ensures id == SetId(k, hex, tag, set_)
  {
    var canon := CanonicalMembers(hex, set_);
    if canon.None? { return None; }
    var ms := canon.value;
    var h := k.hash(tag);
    for i := 0 to |ms|
      invariant h == Fold(k, tag, ms[..i])
    {
      assert ms[..i + 1][..i] == ms[..i];
      h := k.hash(Record(k, h, ms[i]));
    }
    assert ms[..|ms|] == ms;
    if set_.epoch > MAX_SAFE { return None; }
    var a: Octets, b: Octets := h, BigEndian(set_.epoch, 32);
    id := Some(k.hash(a + b));
  }

  /** The id does not depend on the order of the validators. */
  lemma SetIdOrderIndependent(k: Keccak, hex: Hex, tag: Octets, a: ValidatorSet, b: ValidatorSet)
    requires multiset(a.validators) == multiset(b.validators) && a.epoch == b.epoch
    ensures SetId(k, hex, tag, a) == SetId(k, hex, tag, b)
  {
    CanonicalOrderIndependent(hex, a, b);
  }

  /** Everything hashed for the id of these members. */
  ghost function FoldInputs(k: Keccak, tag: Octets, ms: seq<CanonMember>): set<Octets> {
    if ms == [] then {tag}
    else
      var n := |ms| - 1;
      FoldInputs(k, tag, ms[..n]) + {Record(k, Fold(k, tag, ms[..n]), ms[n]), ms[n].key, ms[n].vrf}
  }

  /** Equal up to the spelling of the keys. */
  ghost predicate SameMembers(a: seq<CanonMember>, b: seq<CanonMember>) {
    |a| == |b| && forall i :: 0 <= i < |a| ==> a[i].key == b[i].key && a[i].stake == b[i].stake && a[i].vrf == b[i].vrf
  }

  ghost predicate StakesFit(ms: seq<CanonMember>) {
    forall i :: 0 <= i < |ms| ==> ms[i].stake < Pow2(256)
  }

  lemma RecordParts(k: Keccak, g: Word, m: CanonMember, h: Word, n: CanonMember)
    requires Record(k, g, m) == Record(k, h, n)
    ensures g == h && k.hash(m.key) == k.hash(n.key) && BigEndian(m.stake, 32) == BigEndian(n.stake, 32)
            && k.hash(m.vrf) == k.hash(n.vrf)
  {
    var a: Octets, b: Octets, c: Octets, d: Octets := g, k.hash(m.key), BigEndian(m.stake, 32), k.hash(m.vrf);
    var a': Octets, b': Octets, c': Octets, d': Octets := h, k.hash(n.key), BigEndian(n.stake, 32), k.hash(n.vrf);
    SplitConcat(a + b + c, d, a' + b' + c', d');
    SplitConcat(a + b, c, a' + b', c');
    SplitConcat(a, b, a', b');
  }

  /** Equal folds have the same members, or two hashed strings collide. */
  lemma {:induction false} FoldBinds(k: Keccak, tag: Octets, a: seq<CanonMember>, b: seq<CanonMember>)
    requires |tag| != 128 && StakesFit(a) && StakesFit(b) && Fold(k, tag, a) == Fold(k, tag, b)
    ensures SameMembers(a, b) || Collision(k.hash, FoldInputs(k, tag, a) + FoldInputs(k, tag, b))
    decreases |a|
  {
    hide Record;
    var inputs := FoldInputs(k, tag, a) + FoldInputs(k, tag, b);
    if a == [] && b == [] {
    } else if a == [] {
      TagInFold(k, tag, b);
      RecordLength(k, Fold(k, tag, b[..|b| - 1]), b[|b| - 1]);
      SameOrCollision(k, inputs, tag, Record(k, Fold(k, tag, b[..|b| - 1]), b[|b| - 1]));
    } else if b == [] {
      TagInFold(k, tag, a);
      RecordLength(k, Fold(k, tag, a[..|a| - 1]), a[|a| - 1]);
      SameOrCollision(k, inputs, Record(k, Fold(k, tag, a[..|a| - 1]), a[|a| - 1]), tag);
    } else {
      LastBinds(k, tag, a, b);
      var a', b' := a[..|a| - 1], b[..|b| - 1];
      if Fold(k, tag, a') == Fold(k, tag, b') {
        FoldBinds(k, tag, a', b');
        MoreInputs(k, FoldInputs(k, tag, a') + FoldInputs(k, tag, b'), inputs);
      }
    }
  }

  lemma MoreInputs(k: Keccak, inputs: set<Octets>, inputs': set<Octets>)
    requires inputs <= inputs'
    ensures Collision(k.hash, inputs) ==> Collision(k.hash, inputs')
  {
    if x, y :| Collides(k.hash, inputs, x, y) { assert Collides(k.hash, inputs', x, y); }
  }

  lemma RecordLength(k: Keccak, h: Word, m: CanonMember)
    ensures |Record(k, h, m)| == 128
  {
  }

  lemma {:induction false} TagInFold(k: Keccak, tag: Octets, ms: seq<CanonMember>)
    ensures tag in FoldInputs(k, tag, ms)
    decreases |ms|
  {
    if ms == [] {
    } else {
      TagInFold(k, tag, ms[..|ms| - 1]);
    }
  }

  /** The last members agree, and the folds before them, unless hashed strings collide. */
  lemma LastBinds(k: Keccak, tag: Octets, a: seq<CanonMember>, b: seq<CanonMember>)
    requires a != [] && b != [] && StakesFit(a) && StakesFit(b) && Fold(k, tag, a) == Fold(k, tag, b)
    ensures var m, n := a[|a| - 1], b[|b| - 1];
            || (m.key == n.key && m.stake == n.stake && m.vrf == n.vrf
                && Fold(k, tag, a[..|a| - 1]) == Fold(k, tag, b[..|b| - 1]))
            || Collision(k.hash, FoldInputs(k, tag, a) + FoldInputs(k, tag, b))
  {
    hide Record, BigEndian;
    var inputs := FoldInputs(k, tag, a) + FoldInputs(k, tag, b);
    var m, n := a[|a| - 1], b[|b| - 1];
    var g, h := Fold(k, tag, a[..|a| - 1]), Fold(k, tag, b[..|b| - 1]);
    SameOrCollision(k, inputs, Record(k, g, m), Record(k, h, n));
    if Record(k, g, m) == Record(k, h, n) {
      RecordParts(k, g, m, h, n);
      SameOrCollision(k, inputs, m.key, n.key);
      SameOrCollision(k, inputs, m.vrf, n.vrf);
      StakeBinds(m.stake, n.stake);
    }
  }

  lemma StakeBinds(a: nat, b: nat)
    requires a < Pow2(256) && b < Pow2(256) && BigEndian(a, 32) == BigEndian(b, 32)
    ensures a == b
  {
    BigEndianInjective(a, b, 32);
  }

  lemma EpochFits(epoch: nat)
    requires epoch <= MAX_SAFE
    ensures epoch < Pow2(256)
  {
    hide Pow2;
    Pow2Of32();
    Shift4(32);
    Shift4(36);
    Shift4(40);
    Shift4(44);
    Shift4(48);
    Shift4(52);
    Pow2Monotone(56, 256);
  }

  lemma Pow2Of32()
    ensures Pow2(32) == 0x1_0000_0000
  {
    assert Pow2(8) == 256;
    assert Pow2(16) == 65536;
    assert Pow2(24) == 0x100_0000;
  }

  /** Equal ids are for the same epoch and the same canonical members, or two hashed strings collide. */
  lemma SetIdBinds(k: Keccak, hex: Hex, tag: Octets, a: ValidatorSet, b: ValidatorSet)
    requires |tag| != 128 && SetId(k, hex, tag, a).Some? && SetId(k, hex, tag, a) == SetId(k, hex, tag, b)
    ensures var ms, ns := CanonicalMembers(hex, a).value, CanonicalMembers(hex, b).value;
            || (a.epoch == b.epoch && SameMembers(ms, ns))
            || Collision(k.hash, FoldInputs(k, tag, ms) + FoldInputs(k, tag, ns)
                         + {FinalRecord(k, tag, ms, a.epoch), FinalRecord(k, tag, ns, b.epoch)})
  {
    var ms, ns := CanonicalMembers(hex, a).value, CanonicalMembers(hex, b).value;
    var x, y := FinalRecord(k, tag, ms, a.epoch), FinalRecord(k, tag, ns, b.epoch);
    var folded := FoldInputs(k, tag, ms) + FoldInputs(k, tag, ns);
    SameOrCollision(k, folded + {x, y}, x, y);
    if x == y {
      FinalParts(k, tag, ms, a.epoch, ns, b.epoch);
      EpochFits(a.epoch);
      EpochFits(b.epoch);
      StakeBinds(a.epoch, b.epoch);
      CanonStakesFit(hex, a);
      CanonStakesFit(hex, b);
      FoldBinds(k, tag, ms, ns);
      MoreInputs(k, folded, folded + {x, y});
    }
  }

  lemma FinalParts(k: Keccak, tag: Octets, ms: seq<CanonMember>, e: nat, ns: seq<CanonMember>, f: nat)
    requires FinalRecord(k, tag, ms, e) == FinalRecord(k, tag, ns, f)
    ensures Fold(k, tag, ms) == Fold(k, tag, ns) && BigEndian(e, 32) == BigEndian(f, 32)
  {
    var a: Octets, b: Octets := Fold(k, tag, ms), BigEndian(e, 32);
    var a': Octets, b': Octets := Fold(k, tag, ns), BigEndian(f, 32);
    SplitConcat(a, b, a', b');
  }

  lemma CanonStakesFit(hex: Hex, set_: ValidatorSet)
    requires CanonicalMembers(hex, set_).Some?
    ensures StakesFit(CanonicalMembers(hex, set_).value)
  {
    var all, ms := CanonAll(hex, set_.validators).value, CanonicalMembers(hex, set_).value;
    KeyOrder();
    SortSorts(NotAfter, all);
    CanonAllFit(hex, set_.validators);
    forall i | 0 <= i < |ms|
      ensures ms[i].stake < Pow2(256)
    {
      assert ms[i] in multiset(all);
      assert ms[i] in all;
    }
  }

  lemma {:induction false} CanonAllFit(hex: Hex, vs: seq<Validator>)
    requires CanonAll(hex, vs).Some?
    ensures forall m :: m in CanonAll(hex, vs).value ==> m.stake < Pow2(256)
  {
    if vs == [] {
    } else {
      CanonAllFit(hex, vs[1..]);
    }
  }

  // --- the attestation message ---

  datatype Target = Target(chainId: int, verifier: string)

  /** The fixed-width record that a validator signs the hash of. */
  function MessageRecord(k: Keccak, tag: Octets, suite: Octets, chainId: nat, verifier: Octets, height: nat,
                         blockHash: Octets, setId: Octets): Octets {
    var a: Octets, b: Octets := k.hash(tag), k.hash(suite);
    a + b + BigEndian(chainId, 32) + verifier + BigEndian(height, 32) + blockHash + setId
  }

  /** The message for a block and a destination; none if a part does not have its width. */
  function AttestMessage(k: Keccak, hex: Hex, tag: Octets, suite: Octets, height: int, blockHash: string, setId: Octets,
                         target: Target): Option<Word> {
    var verifier, block := hex(target.verifier), hex(blockHash);
    if |setId| != 32 || verifier.None? || |verifier.value| != 20 || block.None? || |block.value| != 32 then None
    else if !(0 <= target.chainId < Pow2(256)) || !(0 <= height <= MAX_SAFE) then None
    else Some(k.hash(MessageRecord(k, tag, suite, target.chainId, verifier.value, height, block.value, setId)))
  }

  /** Equal messages are for the same suite, destination, height, block and set, or two hashed strings collide. */
  lemma MessageBinds(k: Keccak, hex: Hex, tag: Octets, suite: Octets, height: int, block: string, setId: Octets,
                     target: Target,
                     suite': Octets, height': int, block': string, setId': Octets, target': Target)
    requires AttestMessage(k, hex, tag, suite, height, block, setId, target).Some?
    requires AttestMessage(k, hex, tag, suite, height, block, setId, target)
             == AttestMessage(k, hex, tag, suite', height', block', setId', target')
    ensures var x := MessageRecord(k, tag, suite, target.chainId, hex(target.verifier).value, height, hex(block).value,
                                   setId);
            var y := MessageRecord(k, tag, suite', target'.chainId, hex(target'.verifier).value, height',
                                   hex(block').value, setId');
            || Collision(k.hash, {x, y, suite, suite'})
            || (suite == suite' && target.chainId == target'.chainId && hex(target.verifier) == hex(target'.verifier)
                && height == height' && hex(block) == hex(block') && setId == setId')
  {
    hide Pow2, MessageRecord;
    var v, w, b, c := hex(target.verifier).value, hex(target'.verifier).value, hex(block).value, hex(block').value;
    var x := MessageRecord(k, tag, suite, target.chainId, v, height, b, setId);
    var y := MessageRecord(k, tag, suite', target'.chainId, w, height', c, setId');
    SameOrCollision(k, {x, y, suite, suite'}, x, y);
    if x == y {
      MessageParts(k, tag, suite, target.chainId, v, height, b, setId, suite', target'.chainId, w, height', c, setId');
      SameOrCollision(k, {x, y, suite, suite'}, suite, suite');
      StakeBinds(target.chainId, target'.chainId);
      EpochFits(height);
      EpochFits(height');
      StakeBinds(height, height');
    }
  }

  lemma MessageParts(k: Keccak, tag: Octets, suite: Octets, chainId: nat, v: Octets, height: nat, b: Octets,
                     setId: Octets,
                     suite': Octets, chainId': nat, v': Octets, height': nat, b': Octets, setId': Octets)
    requires |v| == |v'| == 20 && |b| == |b'| == |setId| == |setId'| == 32
    requires MessageRecord(k, tag, suite, chainId, v, height, b, setId)
             == MessageRecord(k, tag, suite', chainId', v', height', b', setId')
    ensures k.hash(suite) == k.hash(suite') && BigEndian(chainId, 32) == BigEndian(chainId', 32) && v == v'
    ensures BigEndian(height, 32) == BigEndian(height', 32) && b == b' && setId == setId'
  {
    hide BigEndian;
    var t: Octets, s: Octets, s': Octets := k.hash(tag), k.hash(suite), k.hash(suite');
    var c, c', h, h' := BigEndian(chainId, 32), BigEndian(chainId', 32), BigEndian(height, 32), BigEndian(height', 32);
    SplitConcat(t + s + c + v + h + b, setId, t + s' + c' + v' + h' + b', setId');
    SplitConcat(t + s + c + v + h, b, t + s' + c' + v' + h', b');
    SplitConcat(t + s + c + v, h, t + s' + c' + v', h');
    SplitConcat(t + s + c, v, t + s' + c', v');
    SplitConcat(t + s, c, t + s', c');
    SplitConcat(t, s, t, s');
  }

  // --- finality ---

  datatype Signed = Signed(validator: string, sig: Octets)

  datatype Verdict = Verdict(finalized: bool, attestingStake: nat, totalStake: nat)

  /** Signature, message and hex key under a fixed suite. */
  type Verifier = (Octets, Octets, string) -> bool

  function BallotOf(verify: Verifier, msg: Octets, a: Signed): Ballot {
    Ballot(a.validator, true, verify(a.sig, msg, a.validator))
  }

  function Ballots(verify: Verifier, msg: Octets, atts: seq<Signed>): seq<Ballot> {
    Mapped(a => BallotOf(verify, msg, a), atts)
  }

  function TotalOf(ms: seq<CanonMember>): nat {
    if ms == [] then 0 else TotalOf(ms[..|ms| - 1]) + ms[|ms| - 1].stake
  }

  /** The stake of a key by its hex spelling; 0 for strangers. */
  function MemberStake(ms: seq<CanonMember>, key: string): nat {
    if ms == [] then 0
    else if ms[|ms| - 1].pubkey == key then ms[|ms| - 1].stake
    else MemberStake(ms[..|ms| - 1], key)
  }

  /** The stake of a set of keys, each counted once. */
  ghost function MemberWeight(ms: seq<CanonMember>, keys: set<string>): nat {
    if ms == [] then 0
    else
      var m := ms[|ms| - 1];
      (if m.pubkey in keys then m.stake else 0) + MemberWeight(ms[..|ms| - 1], keys - {m.pubkey})
  }

  lemma {:induction false} MemberWeightEmpty(ms: seq<CanonMember>)
    ensures MemberWeight(ms, {}) == 0
    decreases |ms|
  {
    if ms == [] {
    } else {
      MemberWeightEmpty(ms[..|ms| - 1]);
      assert {} - {ms[|ms| - 1].pubkey} == {};
    }
  }

  lemma {:induction false} MemberWeightAdd(ms: seq<CanonMember>, keys: set<string>, key: string)
    requires key !in keys
    ensures MemberWeight(ms, keys + {key}) == MemberWeight(ms, keys) + MemberStake(ms, key)
    decreases |ms|
  {
    if ms == [] {
    } else {
      var k := ms[|ms| - 1].pubkey;
      if k == key {
        assert keys + {key} - {k} == keys - {k};
      } else {
        assert keys + {key} - {k} == (keys - {k}) + {key};
        MemberWeightAdd(ms[..|ms| - 1], keys - {k}, key);
      }
    }
  }

  lemma {:induction false} MemberWeightBound(ms: seq<CanonMember>, keys: set<string>)
    ensures MemberWeight(ms, keys) <= TotalOf(ms)
    decreases |ms|
  {
    if ms == [] {
    } else {
      MemberWeightBound(ms[..|ms| - 1], keys - {ms[|ms| - 1].pubkey});
    }
  }

  /** The staked members that signed the message. */
  ghost function Signers(verify: Verifier, ms: seq<CanonMember>, msg: Octets, atts: seq<Signed>): set<string> {
    CountAny(v => MemberStake(ms, v) > 0, Ballots(verify, msg, atts))
  }

  /** The attesting stake is exactly that of the members with some valid signature, in any order of the list. */
  method CountAttesting(verify: Verifier, ms: seq<CanonMember>, msg: Octets, atts: seq<Signed>) returns (attesting: nat)
    ensures attesting == MemberWeight(ms, Signers(verify, ms, msg, atts))
  {
    hide MemberWeight, MemberStake;
    var seen: set<string> := {};
    attesting := 0;
    ghost var ballots := Ballots(verify, msg, atts);
    MemberWeightEmpty(ms);
    for i := 0 to |atts|
      invariant seen == CountAny(v => MemberStake(ms, v) > 0, ballots[..i]) && attesting == MemberWeight(ms, seen)
    {
      assert ballots[..i + 1][..i] == ballots[..i];
      var a := atts[i];
      if a.validator in seen { continue; }
      var s := MemberStake(ms, a.validator);
      if s <= 0 { continue; }
      if !verify(a.sig, msg, a.validator) { continue; }
      MemberWeightAdd(ms, seen, a.validator);
      seen := seen + {a.validator};
      attesting := attesting + s;
    }
    assert ballots[..|atts|] == ballots;
  }

  /** What the verifier checks before it looks at signatures: the members and the message, or none. */
  function Prepared(k: Keccak, hex: Hex, setTag: Octets, tag: Octets, set_: ValidatorSet, suite: Octets, height: int,
                    blockHash: string, target: Target)
    : Option<(seq<CanonMember>, Word)>
  {
    var ms, id := CanonicalMembers(hex, set_), SetId(k, hex, setTag, set_);
    if ms.None? || id.None? then None
    else
      var msg := AttestMessage(k, hex, tag, suite, height, blockHash, id.value, target);
      if msg.None? then None else Some((ms.value, msg.value))
  }

  /** The verifier gets to the signatures: the threshold, the sizes and the set are fine, and there is stake. */
  predicate Ready(k: Keccak, hex: Hex, setTag: Octets, tag: Octets, set_: ValidatorSet, atts: seq<Signed>,
                  suite: Octets,
                  height: int, blockHash: string, target: Target, num: int, den: int) {
    && 1 <= num <= den && |set_.validators| <= MAX_VALIDATORS && |atts| <= MAX_ATTESTATIONS
    && var ready := Prepared(k, hex, setTag, tag, set_, suite, height, blockHash, target);
       ready.Some? && TotalOf(ready.value.0) > 0
  }

  /** Throws exactly if all is ready for the signatures, even for none, and the suite has no verifier. */
  method VerifyEvmFinality(k: Keccak, hex: Hex, setTag: Octets, tag: Octets, signerFor: Octets -> Option<Verifier>,
                           set_: ValidatorSet, atts: seq<Signed>, suite: Octets, height: int, blockHash: string,
                           target: Target, num: int, den: int) returns (v: Completion<Verdict>)
    ensures var ready := Ready(k, hex, setTag, tag, set_, atts, suite, height, blockHash, target, num, den);
            && (v.Thrown? <==> ready && signerFor(suite).None?)
            && (v.Returned? && !ready ==> v.value == Verdict(false, 0, 0))
            && (v.Returned? && ready ==>
                  var (ms, msg) := Prepared(k, hex, setTag, tag, set_, suite, height, blockHash, target).value;
                  var attesting, total := MemberWeight(ms, Signers(signerFor(suite).value, ms, msg, atts)), TotalOf(ms);
                  v.value == Verdict(attesting * den >= num * total, attesting, total) && attesting <= total)
  {
    hide CanonicalMembers, SetId, AttestMessage, MemberWeight, Signers;
    var fail := Returned(Verdict(false, 0, 0));
    if num < 1 || den < 1 || num > den { return fail; }
    if |set_.validators| > MAX_VALIDATORS || |atts| > MAX_ATTESTATIONS { return fail; }
    var canon := CanonicalMembers(hex, set_);
    if canon.None? { return fail; }
    var ms := canon.value;
    var total := TotalOf(ms);
    if total <= 0 { return Returned(Verdict(false, 0, total)); }
    var id := EvmSetId(k, hex, setTag, set_);
    if id.None? { return fail; }
    var msg := AttestMessage(k, hex, tag, suite, height, blockHash, id.value, target);
    if msg.None? { return fail; }
    var signer := signerFor(suite);
    if signer.None? { return Thrown; }
    var attesting := CountAttesting(signer.value, ms, msg.value, atts);
    MemberWeightBound(ms, Signers(signer.value, ms, msg.value, atts));
    v := Returned(Verdict(attesting * den >= num * total, attesting, total));
  }

  /** Finality does not depend on the order of the signatures. */
  lemma SignersOrderIndependent(verify: Verifier, ms: seq<CanonMember>, msg: Octets, atts: seq<Signed>,
                                atts': seq<Signed>)
    requires multiset(atts) == multiset(atts')
    ensures Signers(verify, ms, msg, atts) == Signers(verify, ms, msg, atts')
  {
    MappedPermutation(a => BallotOf(verify, msg, a), atts, atts');
    CountAnyOrderIndependent(v => MemberStake(ms, v) > 0, Ballots(verify, msg, atts), Ballots(verify, msg, atts'));
  }

  // --- where the verifier throws ---

  /** A hash with one value. */
  const FLAT: Keccak := Keccak(x => seq(32, i => 0))

  /** Decodes a key, a block hash and an address. */
  function TinyHex(s: string): Option<Octets> {
    if s == "key" then Some([1]) else if s == "block" then Some(seq(32, i => 0)) else Some(seq(20, i => 0))
  }

  const TINY: ValidatorSet := ValidatorSet([Validator("key", 1, None)], 0)

  const TINY_MEMBER: CanonMember := CanonMember("key", [1], 1, [])

  lemma SoleMember(hex: Hex, v: Validator, epoch: nat, m: CanonMember)
    requires CanonOf(hex, v) == Some(m)
    ensures CanonicalMembers(hex, ValidatorSet([v], epoch)) == Some([m])
  {
    hide CanonOf, Less;
    assert [v][1..] == [] && [m] + [] == [m];
    assert CanonAll(hex, [v]) == Some([m]);
    assert [m][1..] == [] && Sort(NotAfter, [m]) == [m];
  }

  lemma TinyMembers()
    ensures CanonicalMembers(TinyHex, TINY) == Some([TINY_MEMBER])
  {
    hide CanonicalMembers, Pow2;
    TwoFits();
    SoleMember(TinyHex, TINY.validators[0], 0, TINY_MEMBER);
  }

  lemma TwoFits()
    ensures 1 < Pow2(256)
  {
    Pow2Monotone(1, 256);
    assert Pow2(1) == 2;
  }

  /** A set, a block and a destination with which the verifier gets to the signatures, whatever the suite. */
  lemma GetsToSignatures(setTag: Octets, tag: Octets, suite: Octets, num: int, den: int)
    requires 1 <= num <= den
    ensures Ready(FLAT, TinyHex, setTag, tag, TINY, [], suite, 0, "block", Target(0, "verifier"), num, den)
  {
    hide MessageRecord, FinalRecord, CanonicalMembers, Pow2;
    TinyMembers();
    assert "key"[0] != "block"[0] && "verifier"[0] != "key"[0] && "verifier"[0] != "block"[0];
    assert [TINY_MEMBER][..0] == [] && TotalOf([TINY_MEMBER]) == 1;
  }

  /** So it throws under every suite without a verifier. */
  method ThrowsWithoutSigner(setTag: Octets, tag: Octets, suite: Octets, num: int, den: int)
    returns (v: Completion<Verdict>)
    requires 1 <= num <= den
    ensures v.Thrown?
  {
    hide Ready;
    GetsToSignatures(setTag, tag, suite, num, den);
    v := VerifyEvmFinality(FLAT, TinyHex, setTag, tag, s => None, TINY, [], suite, 0, "block", Target(0, "verifier"),
                           num,
                           den);
  }
}
