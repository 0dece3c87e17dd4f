/** Arithmetic modulo the prime order of the ristretto255 group. */
module Scalars {
  import opened Bits

  /** The group order 2^252 + 27742317777372353535851937790883648493. */
  const L: int := 7237005577332262213973186563042994240857116359379907606001950938285454250989

  /** The canonical representative of `x`, from 0 on and below the order. */
  function Mod(x: int): (r: int)
    ensures 0 <= r < L
  {
    x % L
  }

  function Pow(b: int, e: nat): int {
    if e == 0 then 1 else b * Pow(b, e - 1)
  }

  // --- congruences ---

  lemma ModOf(x: int, y: int, k: int)
    requires x == y + k * L
    ensures Mod(x) == Mod(y)
  {
    AddMultiple(y, k, L);
  }

  lemma ModSmall(x: int)
    requires 0 <= x < L
    ensures Mod(x) == x
  {
  }

  lemma ModMod(x: int)
    ensures Mod(Mod(x)) == Mod(x)
  {
  }

  lemma ModSplit(x: int) returns (k: int)
    ensures x == Mod(x) + k * L
  {
    k := x / L;
  }

  lemma ModAdd(a: int, b: int)
    ensures Mod(Mod(a) + b) == Mod(a + b)
    ensures Mod(a + Mod(b)) == Mod(a + b)
    ensures Mod(Mod(a) + Mod(b)) == Mod(a + b)
  {
    var x := ModSplit(a);
    var y := ModSplit(b);
    ModOf(a + b, Mod(a) + b, x);
    ModOf(a + b, a + Mod(b), y);
    ModOf(a + b, Mod(a) + Mod(b), x + y);
  }

  lemma ModMul(a: int, b: int)
    ensures Mod(Mod(a) * b) == Mod(a * b)
    ensures Mod(b * Mod(a)) == Mod(a * b)
  {
    var x := ModSplit(a);
    Distribute(a, b, Mod(a), x, L);
    ModOf(a * b, Mod(a) * b, x * b);
  }

  lemma Distribute(a: int, b: int, r: int, x: int, l: int)
    requires a == r + x * l
    ensures a * b == r * b + (x * b) * l && b * r == r * b
  {
  }

  /** Congruent numbers are those whose difference is congruent to zero. */
  lemma ModDiff(a: int, b: int)
    ensures Mod(a - b) == 0 <==> Mod(a) == Mod(b)
  {
    var x := ModSplit(a);
    var y := ModSplit(b);
    var z := ModSplit(a - b);
    if Mod(a - b) == 0 {
      ModOf(a, b, z);
    } else if Mod(a) == Mod(b) {
      ModOf(a - b, 0, x - y);
    }
  }

  // --- fast exponentiation ---

  /** Square and multiply. */
  method ModPow(base: int, exp: nat, m: int) returns (r: int)
    requires m > 1
    ensures r == Pow(Mod(base), exp) % m
  {
    r := 1;
    var b := Mod(base);
    var e := exp;
    ghost var goal := Pow(b, exp) % m;
    while e > 0
      invariant (r * Pow(b, e)) % m == goal
      invariant 0 <= r < m
    {
      SquareStep(r, b, e, m);
      var b' := (b * b) % m;
      if e % 2 == 1 {
        r := (r * b) % m;
      }
      e := e / 2;
      b := b';
    }
    assert r * Pow(b, 0) == r;
    DivUnique(r, m, 0, r);
  }

  lemma SquareStep(r: int, b: int, e: nat, m: int)
    requires m > 1 && e > 0
    ensures var r' := if e % 2 == 1 then (r * b) % m else r;
            (r' * Pow((b * b) % m, e / 2)) % m == (r * Pow(b, e)) % m
  {
    var h := e / 2;
    PowSquare(b, h);
    PowMod(b * b, h, m);
    var x := Pow((b * b) % m, h);
    assert x % m == Pow(b, 2 * h) % m;
    if e % 2 == 1 {
      assert Pow(b, e) == b * Pow(b, 2 * h);
      MulMod(r * b, x, m);
      MulMod(x, r * b, m);
      MulMod(Pow(b, 2 * h), r * b, m);
      assert (r * b) * Pow(b, 2 * h) == r * Pow(b, e);
    } else {
      MulMod(x, r, m);
      MulMod(Pow(b, e), r, m);
    }
  }

  lemma MulMod(a: int, b: int, m: int)
    requires m > 0
    ensures ((a % m) * b) % m == (a * b) % m
  {
    var k := a / m;
    assert a * b == (a % m) * b + (k * b) * m by { assert a == (a % m) + k * m; }
    AddMultiple((a % m) * b, k * b, m);
  }

  lemma AddMultiple(x: int, k: int, m: int)
    requires m > 0
    ensures (x + k * m) % m == x % m
  {
    DivUnique(x + k * m, m, x / m + k, x % m);
  }

  lemma DivUnique(x: int, m: int, q: int, r: int)
    requires m > 0 && x == q * m + r && 0 <= r < m
    ensures x / m == q && x % m == r
  {
    Multiple(x / m - q, r - x % m, m);
  }

  /** Only the zero multiple of `m` is smaller than `m`. */
  lemma Multiple(k: int, d: int, m: int)
    requires m > 0 && k * m == d && -m < d < m
    ensures k == 0
  {
    if k >= 1 { MulAtLeast(k, m); } else if k <= -1 { MulAtLeast(-k, m); }
  }

  lemma MulAtLeast(k: int, m: int)
    requires k >= 1 && m > 0
    ensures k * m >= m && -k * m <= -m
  {
  }

  lemma {:induction false} PowSquare(b: int, h: nat)
    ensures Pow(b * b, h) == Pow(b, 2 * h)
  {
    if h == 0 {
    } else {
      PowSquare(b, h - 1);
    }
  }

  lemma {:induction false} PowMod(b: int, h: nat, m: int)
    requires m > 0
    ensures Pow(b % m, h) % m == Pow(b, h) % m
  {
    hide Pow;
    PowStep(b % m, h);
    PowStep(b, h);
    if h == 0 {
    } else {
      PowMod(b, h - 1, m);
      ProductMod(b, Pow(b % m, h - 1), Pow(b, h - 1), m);
    }
  }

  lemma PowStep(b: int, e: nat)
    ensures Pow(b, e) == if e == 0 then 1 else b * Pow(b, e - 1)
  {
  }

  lemma ProductMod(b: int, x: int, y: int, m: int)
    requires m > 0 && x % m == y % m
    ensures ((b % m) * x) % m == (b * y) % m
  {
    MulMod(b, x, m);
    MulMod(x, b, m);
    MulMod(y, b, m);
    Commute(x, b);
    Commute(y, b);
  }

  lemma Commute(x: int, y: int)
    ensures x * y == y * x
  {
  }

  // --- primes ---

  ghost predicate Prime(p: int) {
    p > 1 && forall a, b :: a > 1 && b > 1 ==> a * b != p
  }

  /** A prime that divides a product divides a factor. */
  lemma {:induction false} Euclid(p: int, a: nat, b: int)
    requires Prime(p) && a < p && (a * b) % p == 0
    ensures a == 0 || b % p == 0
    decreases a
  {
    if a <= 1 {
    } else {
      NotDivisible(p, a);
      RemainderDivides(p, a, b);
      Euclid(p, p % a, b);
    }
  }

  lemma NotDivisible(p: int, a: int)
    requires Prime(p) && 1 < a < p
    ensures p % a != 0
  {
    var q := p / a;
    assert p == a * q + p % a;
    if q > 1 { assert a * q != p; } else { assert a * q <= a; }
  }

  lemma RemainderDivides(p: int, a: int, b: int)
    requires p > 0 && a > 0 && (a * b) % p == 0
    ensures ((p % a) * b) % p == 0
  {
    var q, k := p / a, (a * b) / p;
    calc {
      (p % a) * b;
      (p - q * a) * b;
      p * b - q * (a * b);
      { assert a * b == k * p; }
      p * b - q * (k * p);
      0 + (b - q * k) * p;
    }
    AddMultiple(0, b - q * k, p);
  }

  // --- Fermat's theorem for base two ---

  function Binom(n: nat, k: nat): nat {
    if k == 0 then 1 else if n == 0 then 0 else Binom(n - 1, k - 1) + Binom(n - 1, k)
  }

  lemma {:induction false} Absorb(n: nat, k: nat)
    requires n >= 1 && k >= 1
    ensures k * Binom(n, k) == n * Binom(n - 1, k - 1)
  {
    if n == 1 {
      if k > 1 { assert Binom(0, k - 1) == 0 && Binom(0, k) == 0; }
    } else {
      Absorb(n - 1, k);
      if k == 1 {
        assert Binom(n - 1, 0) == 1 && Binom(n - 2, 0) == 1;
      } else {
        Absorb(n - 1, k - 1);
        AbsorbStep(n, k, Binom(n - 1, k - 1), Binom(n - 1, k), Binom(n - 2, k - 2), Binom(n - 2, k - 1));
      }
    }
  }

  lemma AbsorbStep(n: int, k: int, x: int, y: int, u: int, v: int)
    requires x == u + v && k * y == (n - 1) * v && (k - 1) * x == (n - 1) * u
    ensures k * (x + y) == n * x
  {
    assert k * (x + y) == (k - 1) * x + x + k * y;
    assert (n - 1) * u + (n - 1) * v == (n - 1) * x;
  }

  function RowSum(n: nat, k: nat): nat {
    if k == 0 then 0 else RowSum(n, k - 1) + Binom(n, k - 1)
  }

  lemma {:induction false} RowSumStep(n: nat, k: nat)
    requires n >= 1 && k >= 1
    ensures RowSum(n, k) == RowSum(n - 1, k) + RowSum(n - 1, k - 1)
  {
    if k <= 1 {
    } else {
      RowSumStep(n, k - 1);
    }
  }

  lemma {:induction false} BinomAbove(n: nat, k: nat)
    requires k > n
    ensures Binom(n, k) == 0
  {
    if n == 0 {
    } else {
      BinomAbove(n - 1, k - 1);
      BinomAbove(n - 1, k);
    }
  }

  lemma {:induction false} RowTotal(n: nat)
    ensures RowSum(n, n + 1) == Pow(2, n)
  {
    if n == 0 {
    } else {
      RowTotal(n - 1);
      RowSumStep(n, n + 1);
      BinomAbove(n - 1, n);
    }
  }

  /** A prime divides the inner binomial coefficients of its row. */
  lemma BinomMod(p: int, k: nat)
    requires Prime(p) && 0 < k < p
    ensures Binom(p, k) % p == 0
  {
    hide Prime, Binom;
    var x, y := Binom(p, k), Binom(p - 1, k - 1);
    assert (k * x) % p == 0 by {
      Absorb(p, k);
      AddMultiple(0, y, p);
      assert k * x == 0 + y * p;
    }
    Euclid(p, k, x);
  }

  lemma {:induction false} RowMod(p: int, k: nat)
    requires Prime(p) && 1 <= k <= p
    ensures RowSum(p, k) % p == 1
  {
    if k > 1 {
      RowMod(p, k - 1);
      BinomMod(p, k - 1);
      var q := Binom(p, k - 1) / p;
      assert Binom(p, k - 1) == q * p;
      AddMultiple(RowSum(p, k - 1), q, p);
    } else {
      assert RowSum(p, 0) == 0 && Binom(p, 0) == 1;
    }
  }

  lemma BinomAll(n: nat)
    ensures Binom(n, n) == 1
  {
    if n == 0 {
    } else {
      BinomAll(n - 1);
      BinomAbove(n - 1, n);
    }
  }

  lemma Fermat(p: int)
    requires Prime(p) && p > 2
    ensures Pow(2, p - 1) % p == 1
  {
    RowTotal(p);
    RowMod(p, p);
    BinomAll(p);
    var x := Pow(2, p - 1);
    assert 2 * x == RowSum(p, p) + 1;
    var q := RowSum(p, p) / p;
    assert 2 * (x - 1) == q * p;
    AddMultiple(0, q, p);
    Euclid(p, 2, x - 1);
    var k := (x - 1) / p;
    DivUnique(x, p, k, 1);
  }

  lemma {:induction false} FermatPower(p: int, m: nat)
    requires Prime(p) && p > 2
    ensures Pow(Pow(2, m), p - 1) % p == 1
  {
    if m == 0 {
      PowOne(p - 1);
    } else {
      FermatPower(p, m - 1);
      Fermat(p);
      PowProduct(2, Pow(2, m - 1), p - 1);
      OneTimesOne(Pow(2, p - 1), Pow(Pow(2, m - 1), p - 1), p);
    }
  }

  lemma OneTimesOne(a: int, b: int, m: int)
    requires m > 1 && a % m == 1 && b % m == 1
    ensures (a * b) % m == 1
  {
    MulMod(a, b, m);
  }

  lemma {:induction false} PowOne(e: nat)
    ensures Pow(1, e) == 1
  {
    if e == 0 {
    } else {
      PowOne(e - 1);
    }
  }

  lemma {:induction false} PowProduct(a: int, b: int, e: nat)
    ensures Pow(a * b, e) == Pow(a, e) * Pow(b, e)
  {
    hide Pow;
    PowStep(a * b, e);
    PowStep(a, e);
    PowStep(b, e);
    if e == 0 {
    } else {
      PowProduct(a, b, e - 1);
      Interchange(a, b, Pow(a, e - 1), Pow(b, e - 1));
    }
  }

  lemma Interchange(a: int, b: int, x: int, y: int)
    ensures (a * b) * (x * y) == (a * x) * (b * y)
  {
  }

  /** Modulo a prime no product of nonzero factors vanishes. */
  lemma NoZeroDivisors(a: int, x: int)
    requires Prime(L) && Mod(a) != 0 && Mod(a * x) == 0
    ensures Mod(x) == 0
  {
    ModMul(a, x);
    Euclid(L, Mod(a), x);
  }

  // --- inverses of powers of two ---

  ghost function PowerBelow(x: int, p: int): int
    requires p > 2
  {
    Pow(x, p - 2) % p
  }

  /** The power that the code takes for the inverse. */
  ghost function Inverse(a: int): int {
    PowerBelow(Mod(a), L)
  }

  lemma {:induction false} Pow2IsPow(m: nat)
    ensures Pow2(m) == Pow(2, m)
  {
    if m == 0 {
    } else {
      Pow2IsPow(m - 1);
    }
  }

  lemma InverseOfPow2(m: nat)
    requires Prime(L)
    ensures Mod(Inverse(Pow2(m)) * Pow2(m)) == 1
  {
    var x := Pow2(m);
    Pow2IsPow(m);
    FermatPower(L, m);
    PowerInverts(x, L);
  }

  lemma PowerInverts(x: int, p: int)
    requires p > 2 && Pow(x, p - 1) % p == 1
    ensures ((Pow(x % p, p - 2) % p) * x) % p == 1
  {
    PowMod(x, p - 2, p);
    MulMod(Pow(x, p - 2), x, p);
  }

  function Times(x: int, y: int): int {
    Mod(x * y)
  }

  /** Multiplying by the inverse and then by the power gives the number back. */
  lemma DividedBack(x: int, m: nat)
    requires Prime(L)
    ensures Mod(Times(x, Inverse(Pow2(m))) * Pow2(m)) == Mod(x)
  {
    var inv, w := Inverse(Pow2(m)), Pow2(m);
    InverseOfPow2(m);
    ModMul(x * inv, w);
    Rearrange(x, inv, w);
    ModMul(inv * w, x);
    OneTimes(Mod(inv * w), x);
  }

  lemma Rearrange(a: int, b: int, c: int)
    ensures (a * b) * c == (b * c) * a
  {
  }

  lemma OneTimes(a: int, x: int)
    requires a == 1
    ensures a * x == x
  {
  }
}
