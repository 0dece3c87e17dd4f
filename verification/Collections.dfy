/** Facts about sequences, multisets and sets that several modules share, and JavaScript's safe integers. */
module Collections {

  // --- safe integers ---

  const MAX_SAFE: int := 0x1F_FFFF_FFFF_FFFF

  predicate Safe(x: int) {
    -MAX_SAFE <= x <= MAX_SAFE
  }

  predicate SafeNat(x: int) {
    0 <= x <= MAX_SAFE
  }

  // --- lists ---

  /** A list with `x`, if it holds. */
  function When<T>(holds: bool, x: T): seq<T> {
    if holds then [x] else []
  }

  function Mapped<T, U>(f: T -> U, xs: seq<T>): (ys: seq<U>)
    ensures |ys| == |xs| && forall i :: 0 <= i < |xs| ==> ys[i] == f(xs[i])
  {
    seq(|xs|, i requires 0 <= i < |xs| => f(xs[i]))
  }

  // --- permutations ---

  lemma CutOne<T>(b: seq<T>, i: nat)
    requires i < |b|
    ensures multiset(b) == multiset{b[i]} + multiset(b[..i] + b[i + 1..])
  {
    assert b == b[..i] + [b[i]] + b[i + 1..];
  }

  lemma CancelOne<T>(x: T, a: multiset<T>, b: multiset<T>)
    requires multiset{x} + a == multiset{x} + b
    ensures a == b
  {
    assert a == (multiset{x} + a) - multiset{x};
    assert b == (multiset{x} + b) - multiset{x};
  }

  /** Permutations stay permutations without a common element. */
  lemma SameRest<T>(a: seq<T>, b: seq<T>, i: nat)
    requires multiset(a) == multiset(b) && |a| > 0 && i < |b| && b[i] == a[0]
    ensures multiset(a[1..]) == multiset(b[..i] + b[i + 1..])
    ensures i == 0 ==> multiset(a[1..]) == multiset(b[1..])
  {
    CutOne(a, 0);
    CutOne(b, i);
    assert a[..0] + a[1..] == a[1..];
    CancelOne(a[0], multiset(a[1..]), multiset(b[..i] + b[i + 1..]));
    if i == 0 { assert b[..0] + b[1..] == b[1..]; }
  }

  lemma MappedCut<T, U>(f: T -> U, b: seq<T>, i: nat)
    requires i < |b|
    ensures multiset(Mapped(f, b)) == multiset{f(b[i])} + multiset(Mapped(f, b[..i] + b[i + 1..]))
  {
    hide Mapped;
    var ys := Mapped(f, b);
    CutOne(ys, i);
    assert ys[..i] + ys[i + 1..] == Mapped(f, b[..i] + b[i + 1..]);
  }

  lemma MappedFirst<T, U>(f: T -> U, a: seq<T>)
    requires |a| > 0
    ensures multiset(Mapped(f, a)) == multiset{f(a[0])} + multiset(Mapped(f, a[1..]))
  {
    hide Mapped;
    MappedCut(f, a, 0);
    assert a[..0] + a[1..] == a[1..];
  }

  /** Where the first element of a permutation is. */
  lemma Found<T>(a: seq<T>, b: seq<T>) returns (i: nat)
    requires multiset(a) == multiset(b) && |a| > 0
    ensures |a| == |b| && i < |b| && b[i] == a[0]
  {
    assert |a| == |multiset(a)| == |multiset(b)| == |b|;
    assert a[0] in multiset(b);
    i :| i < |b| && b[i] == a[0];
  }

  /** Mapping preserves being a permutation. */
  lemma {:induction false} MappedPermutation<T, U>(f: T -> U, a: seq<T>, b: seq<T>)
    requires multiset(a) == multiset(b)
    ensures multiset(Mapped(f, a)) == multiset(Mapped(f, b))
  {
    hide Mapped;
    if |a| == 0 {
      assert |b| == |multiset(b)| == 0;
      assert Mapped(f, a) == Mapped(f, b);
    } else {
      var i := Found(a, b);
      SameRest(a, b, i);
      MappedPermutation(f, a[1..], b[..i] + b[i + 1..]);
      MappedFirst(f, a);
      MappedCut(f, b, i);
    }
  }

  // --- sorting ---

  /** A stable sort by insertion, for an order in which every two elements are related. */
  function Sort<T>(le: (T, T) -> bool, xs: seq<T>): seq<T> {
    if xs == [] then [] else Insert(le, xs[0], Sort(le, xs[1..]))
  }

  function Insert<T>(le: (T, T) -> bool, x: T, sorted: seq<T>): seq<T> {
    if sorted == [] || le(x, sorted[0]) then [x] + sorted else [sorted[0]] + Insert(le, x, sorted[1..])
  }

  ghost predicate Ordering<T(!new)>(le: (T, T) -> bool) {
    && (forall x, y :: le(x, y) || le(y, x))
    && (forall x, y, z :: le(x, y) && le(y, z) ==> le(x, z))
  }

  ghost predicate Sorted<T>(le: (T, T) -> bool, xs: seq<T>) {
    forall i, j :: 0 <= i < j < |xs| ==> le(xs[i], xs[j])
  }

  lemma SortedPrepend<T>(le: (T, T) -> bool, x: T, xs: seq<T>)
    requires Sorted(le, xs) && forall y :: y in multiset(xs) ==> le(x, y)
    ensures Sorted(le, [x] + xs)
  {
    forall j | 0 <= j < |xs|
      ensures le(x, xs[j])
    {
      assert xs[j] in multiset(xs);
    }
  }

  lemma SortedFirst<T>(le: (T, T) -> bool, xs: seq<T>, y: T)
    requires Sorted(le, xs) && |xs| > 0 && y in multiset(xs[1..])
    ensures le(xs[0], y)
  {
    assert y in xs[1..];
    var j :| 0 <= j < |xs[1..]| && xs[1..][j] == y;
    assert xs[j + 1] == y;
  }

  lemma MultisetPrepend<T>(x: T, xs: seq<T>)
    ensures multiset([x] + xs) == multiset{x} + multiset(xs)
  {
  }

  lemma {:induction false} InsertSorted<T(!new)>(le: (T, T) -> bool, x: T, sorted: seq<T>)
    requires Ordering(le) && Sorted(le, sorted)
    ensures Sorted(le, Insert(le, x, sorted)) && multiset(Insert(le, x, sorted)) == multiset{x} + multiset(sorted)
  {
    MultisetPrepend(x, sorted);
    if sorted == [] {
    } else {
      var first, rest := sorted[0], sorted[1..];
      assert sorted == [first] + rest;
      MultisetPrepend(first, rest);
      if le(x, first) {
        InsertFirst(le, x, sorted);
      } else {
        InsertSorted(le, x, rest);
        InsertLater(le, x, sorted);
      }
    }
  }

  lemma InsertFirst<T(!new)>(le: (T, T) -> bool, x: T, sorted: seq<T>)
    requires Ordering(le) && Sorted(le, sorted) && |sorted| > 0 && le(x, sorted[0])
    ensures Sorted(le, [x] + sorted)
  {
    forall y | y in multiset(sorted)
      ensures le(x, y)
    {
      assert y in sorted;
      var j :| 0 <= j < |sorted| && sorted[j] == y;
      if j > 0 { assert le(x, sorted[0]) && le(sorted[0], sorted[j]); }
    }
    SortedPrepend(le, x, sorted);
  }

  lemma InsertLater<T(!new)>(le: (T, T) -> bool, x: T, sorted: seq<T>)
    requires Ordering(le) && Sorted(le, sorted) && |sorted| > 0 && !le(x, sorted[0])
    requires var tail := Insert(le, x, sorted[1..]);
             Sorted(le, tail)
             && multiset(tail) == multiset{x} + multiset(sorted[1..])
    ensures Sorted(le, [sorted[0]] + Insert(le, x, sorted[1..]))
    ensures multiset([sorted[0]] + Insert(le, x, sorted[1..])) == multiset{x} + multiset{sorted[0]}
            + multiset(sorted[1..])
  {
    hide Insert;
    var first, tail := sorted[0], Insert(le, x, sorted[1..]);
    assert le(first, x);
    forall y | y in multiset(tail)
      ensures le(first, y)
    {
      if y != x { SortedFirst(le, sorted, y); }
    }
    SortedPrepend(le, first, tail);
    MultisetPrepend(first, tail);
  }

  lemma {:induction false} SortSorts<T(!new)>(le: (T, T) -> bool, xs: seq<T>)
    requires Ordering(le)
    ensures Sorted(le, Sort(le, xs)) && multiset(Sort(le, xs)) == multiset(xs)
  {
    hide Insert, Ordering;
    if xs == [] {
    } else {
      SortSorts(le, xs[1..]);
      InsertSorted(le, xs[0], Sort(le, xs[1..]));
      assert xs == [xs[0]] + xs[1..];
      MultisetPrepend(xs[0], xs[1..]);
    }
  }

  // --- sets ---

  lemma {:induction false} SubsetSize<T>(a: set<T>, b: set<T>)
    requires a <= b
    ensures |a| <= |b|
  {
    if a == {} {
    } else {
      var x :| x in a;
      SubsetSize(a - {x}, b - {x});
    }
  }
}
