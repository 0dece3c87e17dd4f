/** The base58btc codec, LEB128 varints and did:key identifiers, on bytes as numbers below 256. */
module Base58 {
  import opened ByteStrings
  import Scalars

  const ALPHABET: string := "123456789" + "ABCDEFGH" + "JKLMN" + "PQRSTUVWXYZ" + "abcdefghijk" + "mnopqrstuvwxyz"

  ghost predicate IsBytes(s: seq<int>) {
    forall i :: 0 <= i < |s| ==> 0 <= s[i] < 256
  }

  // --- positional notation, least significant digit first ---

  function Quo(v: nat, base: nat): (q: nat)
    requires base >= 2
    ensures v >= base ==> 1 <= q < v
    ensures v < base ==> q == 0
    ensures v > 0 ==> q < v
  {
    QuoBounds(v, base);
    v / base
  }

  function Rem(v: nat, base: nat): (r: nat)
    requires base >= 2
    ensures r < base
    ensures v < base ==> r == v
  {
    v % base
  }

  lemma QuoBounds(v: nat, base: nat)
    requires base >= 2
    ensures v / base >= 0 && (v >= base ==> 1 <= v / base < v) && (v < base ==> v / base == 0)
  {
    var q := v / base;
    if q >= 1 { Scalars.MulAtLeast(base - 1, q); }
    if q <= -1 { Scalars.MulAtLeast(-q, base); }
  }

  lemma QuoRem(v: nat, base: nat)
    requires base >= 2
    ensures v == Quo(v, base) * base + Rem(v, base)
  {
  }

  lemma QuoRemUnique(v: nat, base: nat, q: nat, r: nat)
    requires base >= 2 && v == q * base + r && r < base
    ensures Quo(v, base) == q && Rem(v, base) == r
  {
    Scalars.DivUnique(v, base, q, r);
  }

  /** The digits of `v`: no leading zero, but one digit for zero. */
  function ToDigits(v: nat, base: nat): (d: seq<int>)
    requires base >= 2
    ensures |d| >= 1
  {
    if v < base then [v] else [Rem(v, base)] + ToDigits(Quo(v, base), base)
  }

  function FromDigits(d: seq<int>, base: nat): int {
    if d == [] then 0 else FromDigits(d[1..], base) * base + d[0]
  }

  ghost predicate AreDigits(d: seq<int>, base: nat) {
    forall i :: 0 <= i < |d| ==> 0 <= d[i] < base
  }

  /** Digits without a leading zero; zero is one digit. */
  ghost predicate Canonical(d: seq<int>, base: nat) {
    AreDigits(d, base) && |d| >= 1 && (|d| > 1 ==> d[|d| - 1] != 0)
  }

  lemma FromDigitsStep(d: seq<int>, base: nat)
    requires d != []
    ensures FromDigits(d, base) == FromDigits(d[1..], base) * base + d[0] && (|d| == 1 ==> FromDigits(d, base) == d[0])
  {
  }

  lemma {:induction false} DigitsCanonical(v: nat, base: nat)
    requires base >= 2
    ensures Canonical(ToDigits(v, base), base) && FromDigits(ToDigits(v, base), base) == v
    ensures v > 0 <==> ToDigits(v, base)[|ToDigits(v, base)| - 1] != 0
  {
    hide Quo, Rem, FromDigits;
    var d := ToDigits(v, base);
    FromDigitsStep(d, base);
    if v >= base {
      var rest := ToDigits(Quo(v, base), base);
      DigitsCanonical(Quo(v, base), base);
      assert d[1..] == rest && d[0] == Rem(v, base);
      QuoRem(v, base);
    } else {
      assert d[1..] == [];
    }
  }

  lemma {:induction false} FromDigitsBound(d: seq<int>, base: nat)
    requires AreDigits(d, base)
    ensures FromDigits(d, base) >= 0
    ensures |d| >= 1 && d[|d| - 1] != 0 ==> FromDigits(d, base) > 0
  {
    if d == [] {
    } else {
      FromDigitsBound(d[1..], base);
      if |d| > 1 { assert d[1..][|d| - 2] == d[|d| - 1]; }
    }
  }

  /** Canonical digits are the digits of their value. */
  lemma {:induction false} DigitsUnique(d: seq<int>, base: nat)
    requires base >= 2 && Canonical(d, base)
    ensures FromDigits(d, base) >= 0 && ToDigits(FromDigits(d, base), base) == d
  {
    hide Quo, Rem;
    FromDigitsBound(d, base);
    var rest := d[1..];
    if |d| > 1 {
      assert rest[|rest| - 1] == d[|d| - 1];
      DigitsUnique(rest, base);
      FromDigitsBound(rest, base);
      var v := FromDigits(rest, base);
      QuoRemUnique(FromDigits(d, base), base, v, d[0]);
      Scalars.MulAtLeast(v, base);
    } else {
      assert rest == [];
      assert d == [d[0]];
    }
  }

  // --- one step of the codec: multiply by `mult` and add ---

  function PushAll(c: nat, base: nat): seq<int>
    requires base >= 2
  {
    if c == 0 then [] else [Rem(c, base)] + PushAll(Quo(c, base), base)
  }

  /** The digits after multiplying by `mult` with an incoming carry. */
  function Carry(d: seq<nat>, base: nat, mult: nat, c: nat): seq<int>
    requires base >= 2
  {
    if d == [] then PushAll(c, base)
    else [Rem(Plus(c, d[0], mult), base)] + Carry(d[1..], base, mult, Quo(Plus(c, d[0], mult), base))
  }

  function Plus(c: nat, d: nat, mult: nat): nat {
    c + d * mult
  }

  lemma {:induction false} PushAllIs(c: nat, base: nat)
    requires base >= 2
    ensures PushAll(c, base) == if c == 0 then [] else ToDigits(c, base)
  {
    hide Quo, Rem;
    if c == 0 {
    } else {
      PushAllIs(Quo(c, base), base);
    }
  }

  lemma {:induction false} CarryIs(v: nat, base: nat, mult: nat, c: nat)
    requires base >= 2 && mult >= 1
    ensures AreDigits(ToDigits(v, base), base)
            && Carry(ToDigits(v, base), base, mult, c) == ToDigits(Plus(c, v, mult), base)
    decreases v
  {
    hide Quo, Rem, Plus;
    DigitsCanonical(v, base);
    var d, x := ToDigits(v, base), Plus(c, v, mult);
    if v < base {
      assert d[1..] == [];
      PushAllIs(Quo(x, base), base);
    } else {
      var y := Plus(c, Rem(v, base), mult);
      assert d[1..] == ToDigits(Quo(v, base), base);
      CarryIs(Quo(v, base), base, mult, Quo(y, base));
      SplitProduct(v, base, mult, c);
    }
  }

  lemma SplitProduct(v: nat, base: nat, mult: nat, c: nat)
    requires base >= 2 && mult >= 1 && v >= base
    ensures var x, y := Plus(c, v, mult), Plus(c, Rem(v, base), mult);
            Quo(x, base) == Plus(Quo(y, base), Quo(v, base), mult) && Rem(x, base) == Rem(y, base) && x >= base
  {
    hide Quo, Rem;
    var y := Plus(c, Rem(v, base), mult);
    var q, r, z, w := Quo(v, base), Rem(v, base), Quo(y, base), Rem(y, base);
    QuoRem(v, base);
    QuoRem(y, base);
    Regroup(v, base, mult, c, q, r, z, w);
    QuoRemUnique(Plus(c, v, mult), base, z + q * mult, w);
  }

  lemma Regroup(v: nat, base: nat, mult: nat, c: nat, q: nat, r: nat, z: nat, w: nat)
    requires mult >= 1 && v == q * base + r && c + r * mult == z * base + w
    ensures c + v * mult == (z + q * mult) * base + w && c + v * mult >= v
  {
    assert v * mult == (q * mult) * base + r * mult;
    assert (z + q * mult) * base == z * base + (q * mult) * base;
    Scalars.MulAtLeast(mult, if v > 0 then v else 1);
  }

  /** The two inner loops of the codec. */
  method MulAdd(digits: seq<nat>, base: nat, mult: nat, add: nat) returns (out: seq<nat>)
    requires base >= 2
    ensures out == Carry(digits, base, mult, add)
  {
    hide Quo, Rem, Plus;
    out := digits;
    var carry := add;
    for j := 0 to |digits|
      invariant |out| == |digits| && out[j..] == digits[j..]
      invariant Carry(digits, base, mult, add) == out[..j] + Carry(digits[j..], base, mult, carry)
    {
      assert digits[j..][0] == digits[j] && digits[j..][1..] == digits[j + 1..];
      assert out[j] == out[j..][0];
      carry := Plus(carry, out[j], mult);
      out := out[j := Rem(carry, base)];
      carry := Quo(carry, base);
      assert out[..j + 1] == out[..j] + [out[j]];
    }
    assert out[..|digits|] == out && digits[|digits|..] == [];
    while carry > 0
      invariant Carry(digits, base, mult, add) == out + PushAll(carry, base)
      decreases carry
    {
      out := out + [Rem(carry, base)];
      carry := Quo(carry, base);
    }
  }

  // --- the alphabet ---

  function CharOf(d: int): char
    requires 0 <= d < 58
  {
    (if d < 9 then '1' as int + d
     else if d < 17 then 'A' as int + d - 9
     else if d < 22 then 'J' as int + d - 17
     else if d < 33 then 'P' as int + d - 22
     else if d < 44 then 'a' as int + d - 33
     else 'm' as int + d - 44) as char
  }

  /** The value of a character; -1 if it is not in the alphabet. */
  function ValueOf(c: char): (d: int)
    ensures -1 <= d < 58
    ensures d >= 0 ==> CharOf(d) == c
    ensures d == -1 ==> forall e :: 0 <= e < 58 ==> CharOf(e) != c
  {
    if '1' <= c <= '9' then c as int - '1' as int
    else if 'A' <= c <= 'H' then c as int - 'A' as int + 9
    else if 'J' <= c <= 'N' then c as int - 'J' as int + 17
    else if 'P' <= c <= 'Z' then c as int - 'P' as int + 22
    else if 'a' <= c <= 'k' then c as int - 'a' as int + 33
    else if 'm' <= c <= 'z' then c as int - 'm' as int + 44
    else -1
  }

  lemma CharRoundTrip(d: int)
    requires 0 <= d < 58
    ensures ValueOf(CharOf(d)) == d
  {
  }

  /** The characters are those of the alphabet, in order. */
  lemma AlphabetChars(d: int)
    requires 0 <= d < 58
    ensures |ALPHABET| == 58 && ALPHABET[d] == CharOf(d)
  {
    if d < 9 {
      assert ALPHABET[d] == "123456789"[d];
    } else if d < 17 {
      assert ALPHABET[d] == "ABCDEFGH"[d - 9];
    } else if d < 22 {
      assert ALPHABET[d] == "JKLMN"[d - 17];
    } else if d < 33 {
      assert ALPHABET[d] == "PQRSTUVWXYZ"[d - 22];
    } else if d < 44 {
      assert ALPHABET[d] == "abcdefghijk"[d - 33];
    } else {
      assert ALPHABET[d] == "mnopqrstuvwxyz"[d - 44];
    }
  }

  // --- big-endian numbers ---

  function Reversed(d: seq<int>): seq<int> {
    if d == [] then [] else Reversed(d[1..]) + [d[0]]
  }

  /** The value of a big-endian number. */
  function Value(s: seq<int>, base: nat): int {
    if s == [] then 0 else Value(s[..|s| - 1], base) * base + s[|s| - 1]
  }

  lemma {:induction false} ReversedLast(d: seq<int>, x: int)
    ensures Reversed(d + [x]) == [x] + Reversed(d)
  {
    if d == [] {
    } else {
      assert (d + [x])[1..] == d[1..] + [x];
      ReversedLast(d[1..], x);
    }
  }

  lemma {:induction false} ReversedTwice(d: seq<int>)
    ensures Reversed(Reversed(d)) == d && |Reversed(d)| == |d|
  {
    if d == [] {
    } else {
      ReversedTwice(d[1..]);
      ReversedLast(Reversed(d[1..]), d[0]);
      assert d == [d[0]] + d[1..];
    }
  }

  lemma {:induction false} ReversedElements(d: seq<int>, base: nat)
    requires AreDigits(d, base)
    ensures |Reversed(d)| == |d| && AreDigits(Reversed(d), base)
    ensures d != [] ==> Reversed(d)[0] == d[|d| - 1] && Reversed(d)[|d| - 1] == d[0]
  {
    ReversedTwice(d);
    if d == [] {
    } else {
      ReversedTwice(d[1..]);
      ReversedElements(d[1..], base);
      if |d| > 1 { assert d[1..][|d| - 2] == d[|d| - 1]; }
    }
  }

  lemma {:induction false} ValueOfReversed(d: seq<int>, base: nat)
    ensures Value(Reversed(d), base) == FromDigits(d, base)
  {
    if d == [] {
    } else {
      var r := Reversed(d);
      assert r[..|r| - 1] == Reversed(d[1..]);
      ValueOfReversed(d[1..], base);
    }
  }

  /** A big-endian number without leading zero is the reverse of the digits of its value. */
  lemma NumberDigits(s: seq<int>, base: nat)
    requires base >= 2 && AreDigits(s, base) && s != [] && s[0] != 0
    ensures Value(s, base) > 0 && ToDigits(Value(s, base), base) == Reversed(s)
  {
    var d := Reversed(s);
    ReversedTwice(s);
    ReversedElements(s, base);
    ValueOfReversed(d, base);
    FromDigitsBound(d, base);
    DigitsUnique(d, base);
  }

  // --- strings ---

  /** The characters of digits, most significant first. */
  function Spell(d: seq<int>): string
    requires AreDigits58(d)
  {
    if d == [] then "" else Spell(d[1..]) + [CharOf(d[0])]
  }

  predicate AreDigits58(d: seq<int>) {
    forall i :: 0 <= i < |d| ==> 0 <= d[i] < 58
  }

  /** The values of characters. */
  function Values(s: string): seq<int> {
    seq(|s|, i requires 0 <= i < |s| => ValueOf(s[i]))
  }

  predicate InAlphabet(s: string) {
    forall i :: 0 <= i < |s| ==> ValueOf(s[i]) >= 0
  }

  lemma {:induction false} SpellValues(d: seq<int>)
    requires AreDigits58(d)
    ensures Values(Spell(d)) == Reversed(d) && InAlphabet(Spell(d))
  {
    if d == [] {
    } else {
      SpellValues(d[1..]);
      CharRoundTrip(d[0]);
      var s := Spell(d[1..]);
      assert Values(s + [CharOf(d[0])]) == Values(s) + [d[0]];
    }
  }

  lemma ReversedValues(s: string)
    requires s != ""
    ensures Reversed(Values(s)) == [ValueOf(s[|s| - 1])] + Reversed(Values(s[..|s| - 1]))
  {
    hide ValueOf, Reversed;
    var n := |s| - 1;
    assert Values(s) == Values(s[..n]) + [ValueOf(s[n])];
    ReversedLast(Values(s[..n]), ValueOf(s[n]));
  }

  lemma {:induction false} SpellReversed(s: string)
    requires InAlphabet(s)
    ensures AreDigits58(Reversed(Values(s))) && Spell(Reversed(Values(s))) == s
    decreases |s|
  {
    hide ValueOf, CharOf, Reversed;
    var d := Reversed(Values(s));
    if s != [] {
      var n := |s| - 1;
      SpellReversed(s[..n]);
      ReversedValues(s);
      assert ValueOf(s[n]) >= 0;
      assert d[1..] == Reversed(Values(s[..n])) && d[0] == ValueOf(s[n]);
      assert s == s[..n] + [s[n]];
    } else {
      assert Values(s) == [];
      ReversedTwice([]);
    }
  }

  // --- the codec ---

  function Leading<T(==)>(s: seq<T>, x: T): (z: nat)
    ensures z <= |s| && (forall i :: 0 <= i < z ==> s[i] == x) && (z < |s| ==> s[z] != x)
  {
    if s == [] || s[0] != x then 0
    else
      var z := Leading(s[1..], x);
      assert forall i :: 0 < i < 1 + z ==> s[i] == s[1..][i - 1];
      1 + z
  }

  function Repeat<T>(x: T, n: nat): seq<T> {
    seq(n, _ => x)
  }

  lemma LeadingIs<T>(s: seq<T>, x: T, n: nat)
    requires s == [] || s[0] != x
    ensures Leading(Repeat(x, n) + s, x) == n
  {
    LeadingUnique(Repeat(x, n) + s, x, n);
  }

  lemma LeadingSplit<T>(s: seq<T>, x: T)
    ensures s == Repeat(x, Leading(s, x)) + s[Leading(s, x)..]
  {
    hide Leading;
    var z := Leading(s, x);
    assert s[..z] == Repeat(x, z);
  }

  function Encode(bytes: seq<int>): string
    requires IsBytes(bytes)
  {
    var z := Leading(bytes, 0);
    var d := ToDigits(Number(bytes[z..], 256), 58);
    DigitsCanonical(Number(bytes[z..], 256), 58);
    Repeat('1', z) + Spell(d)
  }

  /** The value of a big-endian number of digits. */
  function Number(s: seq<int>, base: nat): (v: nat)
    requires AreDigits(s, base)
    ensures v == Value(s, base)
  {
    ValueNat(s, base);
    Value(s, base)
  }

  lemma {:induction false} ValueNat(s: seq<int>, base: nat)
    requires AreDigits(s, base)
    ensures Value(s, base) >= 0
    decreases |s|
  {
    if s == [] {
    } else {
      ValueNat(s[..|s| - 1], base);
    }
  }

  function Decode(s: string): Option<seq<int>> {
    var z := Leading(s, '1');
    if !InAlphabet(s[z..]) then None
    else Some(Repeat(0, z) + Reversed(ToDigits(Number(Values(s[z..]), 58), 256)))
  }

  /** Some byte is not zero. */
  predicate HasNonzero(bytes: seq<int>) {
    exists i :: 0 <= i < |bytes| && bytes[i] != 0
  }

  lemma NonzeroLeading(bytes: seq<int>)
    ensures HasNonzero(bytes) <==> Leading(bytes, 0) < |bytes|
  {
  }

  /** The string of a positive number does not start with the digit for zero, and spells the number. */
  lemma SpelledNumber(v: nat)
    ensures AreDigits58(ToDigits(v, 58))
    ensures var t := Spell(ToDigits(v, 58));
            InAlphabet(t) && Value(Values(t), 58) == v && t != ""
            && (v > 0 ==> t[0] != '1')
  {
    var d := ToDigits(v, 58);
    DigitsCanonical(v, 58);
    SpellValues(d);
    ValueOfReversed(d, 58);
    ReversedElements(d, 58);
    var t := Spell(d);
    assert Values(t)[0] == d[|d| - 1];
    assert ValueOf('1') == 0;
  }

  /** Decoding inverts encoding exactly on the byte strings with a nonzero byte; the others grow by two bytes. */
  lemma DecodeEncode(bytes: seq<int>)
    requires IsBytes(bytes)
    ensures Decode(Encode(bytes)) == Some(if HasNonzero(bytes) then bytes else Repeat(0, |bytes| + 2))
  {
    NonzeroLeading(bytes);
    if HasNonzero(bytes) { NonzeroRoundTrip(bytes); } else { ZerosGrow(bytes); }
  }

  lemma EncodeOf(z: nat, rest: seq<int>)
    requires IsBytes(rest) && (rest == [] || rest[0] != 0)
    ensures IsBytes(Repeat(0, z) + rest) && AreDigits58(ToDigits(Number(rest, 256), 58))
    ensures Encode(Repeat(0, z) + rest) == Repeat('1', z) + Spell(ToDigits(Number(rest, 256), 58))
  {
    LeadingIs(rest, 0, z);
    assert (Repeat(0, z) + rest)[z..] == rest;
    SpelledNumber(Number(rest, 256));
  }

  lemma DecodeOf(z: nat, t: string)
    requires InAlphabet(t) && (t == "" || t[0] != '1')
    ensures AreDigits(Values(t), 58)
    ensures Decode(Repeat('1', z) + t) == Some(Repeat(0, z) + Reversed(ToDigits(Number(Values(t), 58), 256)))
  {
    LeadingIs(t, '1', z);
    assert (Repeat('1', z) + t)[z..] == t;
  }

  lemma NonzeroRoundTrip(bytes: seq<int>)
    requires IsBytes(bytes) && Leading(bytes, 0) < |bytes|
    ensures Decode(Encode(bytes)) == Some(bytes)
  {
    hide *;
    var z := Leading(bytes, 0);
    var rest := bytes[z..];
    LeadingSplit(bytes, 0);
    SplitBytes(bytes, z);
    var v := Number(rest, 256);
    EncodeOf(z, rest);
    SpelledNumber(v);
    NumberDigits(rest, 256);
    var t := Spell(ToDigits(v, 58));
    DecodeOf(z, t);
    assert Number(Values(t), 58) == v;
    ReversedTwice(rest);
  }

  lemma SplitBytes(bytes: seq<int>, z: nat)
    requires IsBytes(bytes) && z <= |bytes|
    ensures IsBytes(bytes[z..]) && AreDigits(bytes[z..], 256)
  {
  }

  lemma ZerosGrow(bytes: seq<int>)
    requires IsBytes(bytes) && Leading(bytes, 0) == |bytes|
    ensures Decode(Encode(bytes)) == Some(Repeat(0, |bytes| + 2))
  {
    hide Decode, Encode;
    ZerosEncode(bytes);
    OnesDecode(|bytes| + 1);
  }

  lemma ZerosEncode(bytes: seq<int>)
    requires IsBytes(bytes) && Leading(bytes, 0) == |bytes|
    ensures Encode(bytes) == Repeat('1', |bytes| + 1)
  {
    var z := |bytes|;
    assert bytes[z..] == [];
    assert Encode(bytes) == Repeat('1', z) + Spell([0]) == Repeat('1', z) + "1";
    assert Repeat('1', z) + "1" == Repeat('1', z + 1);
  }

  lemma OnesDecode(n: nat)
    ensures Decode(Repeat('1', n)) == Some(Repeat(0, n + 1))
  {
    var s := Repeat('1', n);
    LeadingUnique(s, '1', n);
    assert s[n..] == "" && Values("") == [];
    assert Reversed([0]) == [0];
    assert Repeat(0, n) + [0] == Repeat(0, n + 1);
  }

  /** Encoding inverts decoding exactly on the valid strings with some digit other than zero. */
  lemma EncodeDecode(s: string)
    requires Decode(s).Some?
    ensures IsBytes(Decode(s).value)
    ensures Encode(Decode(s).value) == s <==> Leading(s, '1') < |s|
  {
    hide Decode, Encode, IsBytes;
    DecodedBytes(s);
    if Leading(s, '1') < |s| {
      SpelledRoundTrip(s);
    } else {
      LeadingSplit(s, '1');
      assert s == Repeat('1', |s|);
      OnesGrow(|s|);
    }
  }

  lemma OnesGrow(n: nat)
    ensures var bytes := Decode(Repeat('1', n)); bytes.Some? && IsBytes(bytes.value) && |Encode(bytes.value)| == n + 2
  {
    OnesDecode(n);
    EncodeOf(n + 1, []);
    assert Repeat(0, n + 1) + [] == Repeat(0, n + 1);
  }

  lemma DecodedBytes(s: string)
    requires Decode(s).Some?
    ensures IsBytes(Decode(s).value)
  {
    var v := Number(Values(s[Leading(s, '1')..]), 58);
    DigitsCanonical(v, 256);
    ReversedElements(ToDigits(v, 256), 256);
  }

  lemma SpelledRoundTrip(s: string)
    requires Decode(s).Some? && IsBytes(Decode(s).value) && Leading(s, '1') < |s|
    ensures Encode(Decode(s).value) == s
  {
    var z := Leading(s, '1');
    LeadingSplit(s, '1');
    SpelledBack(z, s[z..]);
  }

  lemma SpelledBack(z: nat, t: string)
    requires InAlphabet(t) && t != "" && t[0] != '1'
    ensures var bytes := Decode(Repeat('1', z) + t);
            bytes.Some? && IsBytes(bytes.value)
            && Encode(bytes.value) == Repeat('1', z) + t
  {
    hide *;
    ValuesStart(t);
    DecodeOf(z, t);
    var v := Number(Values(t), 58);
    NumberDigits(Values(t), 58);
    var d := ToDigits(v, 256);
    DigitsCanonical(v, 256);
    CanonicalDigits(d, 256);
    ReversedElements(d, 256);
    ValueOfReversed(d, 256);
    BytesAreDigits(Reversed(d));
    EncodeOf(z, Reversed(d));
    assert Number(Reversed(d), 256) == v;
    SpellReversed(t);
  }

  lemma CanonicalDigits(d: seq<int>, base: nat)
    requires Canonical(d, base)
    ensures AreDigits(d, base) && d != []
  {
  }

  lemma BytesAreDigits(s: seq<int>)
    ensures IsBytes(s) <==> AreDigits(s, 256)
  {
  }

  lemma ValuesStart(t: string)
    requires t != "" && InAlphabet(t) && t[0] != '1'
    ensures Values(t) != [] && Values(t)[0] != 0 && AreDigits(Values(t), 58)
  {
    assert CharOf(0) == '1';
  }

  /** Different byte strings have different encodings, also those of zeros only. */
  lemma EncodeInjective(a: seq<int>, b: seq<int>)
    requires IsBytes(a) && IsBytes(b) && Encode(a) == Encode(b)
    ensures a == b
  {
    DecodeEncode(a);
    DecodeEncode(b);
    if !HasNonzero(a) && !HasNonzero(b) {
      assert |Repeat(0, |a| + 2)| == |Repeat(0, |b| + 2)|;
    }
  }

  // --- the loops of the codec ---

  method Base58Encode(bytes: seq<int>) returns (out: string)
    requires IsBytes(bytes)
    ensures out == Encode(bytes)
  {
    hide ToDigits, Carry, Value, Leading, CharOf;
    var zeros := 0;
    while zeros < |bytes| && bytes[zeros] == 0
      invariant zeros <= |bytes| && forall i :: 0 <= i < zeros ==> bytes[i] == 0
    {
      zeros := zeros + 1;
    }
    assert zeros == Leading(bytes, 0) by { LeadingUnique(bytes, 0, zeros); }
    EmptyNumber(256, 58);
    assert bytes[zeros..zeros] == [];
    var digits: seq<nat> := [0];
    for i := zeros to |bytes|
      invariant digits == ToDigits(Number(bytes[zeros..i], 256), 58)
    {
      var v := Number(bytes[zeros..i], 256);
      NextNumber(bytes[zeros..i], bytes[i], 256);
      assert bytes[zeros..i + 1] == bytes[zeros..i] + [bytes[i]];
      CarryIs(v, 58, 256, bytes[i]);
      digits := MulAdd(digits, 58, 256, bytes[i]);
    }
    assert bytes[zeros..|bytes|] == bytes[zeros..];
    DigitsCanonical(Number(bytes[zeros..], 256), 58);
    out := Repeat('1', zeros);
    assert digits[|digits|..] == [];
    for k := |digits| downto 0
      invariant out == Repeat('1', zeros) + Spell(digits[k..])
    {
      assert digits[k..][0] == digits[k] && digits[k..][1..] == digits[k + 1..];
      out := out + [CharOf(digits[k])];
    }
    assert digits[0..] == digits;
  }

  lemma EmptyNumber(base: nat, base': nat)
    requires base' >= 2
    ensures ToDigits(Number([], base), base') == [0]
  {
  }

  lemma NextNumber(s: seq<int>, x: int, base: nat)
    requires AreDigits(s, base) && 0 <= x < base
    ensures Number(s + [x], base) == Plus(x, Number(s, base), base)
  {
    assert (s + [x])[..|s|] == s;
  }

  lemma LeadingUnique<T>(s: seq<T>, x: T, n: nat)
    requires n <= |s| && (forall i :: 0 <= i < n ==> s[i] == x) && (n < |s| ==> s[n] != x)
    ensures Leading(s, x) == n
  {
  }

  method Base58Decode(s: string) returns (out: Option<seq<int>>)
    ensures out == Decode(s)
  {
    hide ToDigits, Carry, Value, Leading, ValueOf;
    var zeros := 0;
    while zeros < |s| && s[zeros] == '1'
      invariant zeros <= |s| && forall i :: 0 <= i < zeros ==> s[i] == '1'
    {
      zeros := zeros + 1;
    }
    assert zeros == Leading(s, '1') by { LeadingUnique(s, '1', zeros); }
    ghost var t := s[zeros..];
    EmptyNumber(58, 256);
    assert Values("") == [];
    var bytes: seq<nat> := [0];
    for i := zeros to |s|
      invariant InAlphabet(s[zeros..i]) && bytes == ToDigits(Number(Values(s[zeros..i]), 58), 256)
    {
      var val := ValueOf(s[i]);
      if val < 0 {
        assert t[i - zeros] == s[i];
        return None;
      }
      ghost var before := s[zeros..i];
      assert s[zeros..i + 1] == before + [s[i]];
      assert Values(before + [s[i]]) == Values(before) + [val];
      NextNumber(Values(before), val, 58);
      CarryIs(Number(Values(before), 58), 256, 58, val);
      bytes := MulAdd(bytes, 256, 58, val);
    }
    assert s[zeros..|s|] == t;
    var tail: seq<int> := [];
    for k := |bytes| downto 0
      invariant tail == Reversed(bytes[k..])
    {
      assert bytes[k..][0] == bytes[k] && bytes[k..][1..] == bytes[k + 1..];
      tail := tail + [bytes[k]];
    }
    assert bytes[0..] == bytes;
    out := Some(Repeat(0, zeros) + tail);
  }

  // --- varints and did:key ---

  /** Groups of seven bits, least significant first; all but the last are marked. */
  function Varint(n: nat): (v: seq<int>)
    ensures |v| >= 1
  {
    if n < 128 then [n] else [n % 128 + 128] + Varint(n / 128)
  }

  method UnsignedVarint(n: int) returns (out: Option<seq<int>>)
    ensures out == if n < 0 then None else Some(Varint(n))
  {
    if n < 0 { return None; }
    var v, bytes := n, [];
    while true
      invariant v >= 0 && bytes + Varint(v) == Varint(n)
      decreases v
    {
      var b := v % 128;
      v := v / 128;
      if v > 0 { b := b + 128; }
      bytes := bytes + [b];
      if v <= 0 { break; }
    }
    out := Some(bytes);
  }

  lemma {:induction false} VarintBytes(n: nat)
    ensures IsBytes(Varint(n))
  {
    if n >= 128 { VarintBytes(n / 128); }
  }

  /** A varint says where it ends. */
  lemma {:induction false} VarintDelimits(m: nat, p: seq<int>, n: nat, q: seq<int>)
    requires Varint(m) + p == Varint(n) + q
    ensures m == n && p == q
    decreases m
  {
    var a, b := Varint(m) + p, Varint(n) + q;
    assert a[0] == Varint(m)[0] && b[0] == Varint(n)[0];
    assert a[1..] == Varint(m)[1..] + p && b[1..] == Varint(n)[1..] + q;
    if m < 128 {
      assert p == a[1..] && q == b[1..];
    } else {
      assert Varint(m)[1..] == Varint(m / 128) && Varint(n)[1..] == Varint(n / 128);
      VarintDelimits(m / 128, p, n / 128, q);
    }
  }

  function DidKey(multicodec: nat, publicKey: seq<int>): string
    requires IsBytes(publicKey)
  {
    VarintBytes(multicodec);
    "did:key:z" + Encode(Varint(multicodec) + publicKey)
  }

  method DidKeyFromPublicKey(multicodec: int, publicKey: seq<int>) returns (did: Option<string>)
    requires IsBytes(publicKey)
    ensures did == if multicodec < 0 then None else Some(DidKey(multicodec, publicKey))
  {
    var prefix := UnsignedVarint(multicodec);
    if prefix.None? { return None; }
    VarintBytes(multicodec);
    var encoded := Base58Encode(prefix.value + publicKey);
    did := Some("did:key:z" + encoded);
  }

  /** Different codes or keys have different identifiers. */
  lemma DidKeyInjective(m: nat, p: seq<int>, n: nat, q: seq<int>)
    requires IsBytes(p) && IsBytes(q) && DidKey(m, p) == DidKey(n, q)
    ensures m == n && p == q
  {
    VarintBytes(m);
    VarintBytes(n);
    var a, b := Encode(Varint(m) + p), Encode(Varint(n) + q);
    assert a == DidKey(m, p)[9..] && b == DidKey(n, q)[9..];
    EncodeInjective(Varint(m) + p, Varint(n) + q);
    VarintDelimits(m, p, n, q);
  }
}
