/**
 The shape of the tree: the directions that the recursive algorithm takes from the root to a leaf,
 or to the node that ends a prefix, are the ones that the verifiers read off the bits of the index.
 */
module MerkleShape {
  import opened Bits
  import opened Merkle

  /** Directions of the path to leaf `m` in a tree of size `n`, bottom-up. */
  function LeafDirs(n: nat, m: nat): seq<bool>
    requires m < n
    decreases n
  {
    if n == 1 then []
    else
      var k := SplitPoint(n);
      if m < k then LeafDirs(k, m) + [false] else LeafDirs(n - k, m - k) + [true]
  }

  /** Directions of the path to the largest node that ends at `m` in a tree of size `n`, bottom-up. */
  function NodeDirs(n: nat, m: nat): seq<bool>
    requires 0 < m <= n
    decreases n
  {
    if m == n then []
    else
      var k := SplitPoint(n);
      if m <= k then NodeDirs(k, m) + [false] else NodeDirs(n - k, m - k) + [true]
  }

  /** A top bit above the inner part does not change the directions. */
  lemma {:induction false} DirsTop(j: nat, a: nat, inner: nat, border: nat)
    requires a < Pow2(j) && inner <= j
    ensures Dirs(a + Pow2(j), inner, border) == Dirs(a, inner, border)
    decreases inner, border
  {
    if border > 0 {
      DirsTop(j, a, inner, border - 1);
    } else if inner > 0 {
      DirsTop(j, a, inner - 1, 0);
      BitTop(j, a, inner - 1);
    }
  }

  /** In a perfect tree the directions are the bits of the index. */
  lemma {:induction false} PerfectDirs(j: nat, m: nat)
    requires m < Pow2(j)
    ensures LeafDirs(Pow2(j), m) == Dirs(m, j, 0)
  {
    hide SplitPoint;
    if j == 0 {
    } else {
      var k := Pow2(j - 1);
      SplitUnique(Pow2(j), j - 1);
      TopBit(j - 1, m);
      if m < k {
        PerfectDirs(j - 1, m);
      } else {
        PerfectDirs(j - 1, m - k);
        DirsTop(j - 1, m - k, j - 1, 0);
      }
    }
  }

  /** The directions the inclusion verifier uses for index `m` in a tree of size `n`. */
  function VerifierDirs(n: nat, m: nat): seq<bool>
    requires m < n
  {
    var inner := BitLength(Xor(m, n - 1));
    Dirs(m, inner, Popcount(Shr(m, inner)))
  }

  lemma VerifierDirsLeft(n: nat, m: nat, j: nat)
    requires m < Pow2(j) < n <= Pow2(j + 1)
    ensures VerifierDirs(n, m) == Dirs(m, j, 0) + [false]
    ensures BitLength(Xor(m, n - 1)) == j + 1
  {
    var k := Pow2(j);
    XorOneTop(j, m, n - 1 - k);
    XorBelow(j, m, n - 1 - k);
    BitLengthUnique(Xor(m, n - 1), j);
    ShrZero(m, j);
    ShrZero(m, j + 1);
  }

  lemma VerifierDirsRight(n: nat, m: nat, j: nat)
    requires Pow2(j) <= m < n <= Pow2(j + 1)
    ensures VerifierDirs(n, m) == VerifierDirs(n - Pow2(j), m - Pow2(j)) + [true]
    ensures Xor(m, n - 1) == Xor(m - Pow2(j), n - 1 - Pow2(j))
  {
    hide BitLength, Xor, Popcount, Shr;
    var a, b := m - Pow2(j), n - 1 - Pow2(j);
    XorBothTop(j, a, b);
    XorBelow(j, a, b);
    var inner := BitLength(Xor(a, b));
    BitLengthBelow(Xor(a, b), j);
    PopcountShrTop(j, a, inner);
    DirsTop(j, a, inner, Popcount(Shr(a, inner)));
  }

  lemma PopcountShrTop(j: nat, a: nat, inner: nat)
    requires a < Pow2(j) && inner <= j
    ensures Popcount(Shr(a + Pow2(j), inner)) == Popcount(Shr(a, inner)) + 1
  {
    ShrTop(j, a, inner);
    PopcountTop(j - inner, Shr(a, inner));
  }

  /** The recursive path to leaf `m` is the bit decomposition used by the inclusion verifier. */
  lemma {:induction false} LeafDirsAreBits(n: nat, m: nat)
    requires m < n
    ensures LeafDirs(n, m) == VerifierDirs(n, m)
    decreases n
  {
    if n <= 1 {
    } else {
      var j := SplitTopBit(n);
      if m < Pow2(j) {
        VerifierDirsLeft(n, m, j);
        PerfectDirs(j, m);
      } else {
        VerifierDirsRight(n, m, j);
        LeafDirsAreBits(n - Pow2(j), m - Pow2(j));
      }
    }
  }

  function Repeat(s: nat): (r: seq<bool>)
    ensures |r| == s
  {
    if s == 0 then [] else Repeat(s - 1) + [true]
  }

  lemma Reassociate(a: seq<bool>, b: seq<bool>, x: bool)
    ensures (a + b) + [x] == a + (b + [x])
  {
  }

  /** The node that ends at `m` is reached from leaf `m - 1` by one right turn for each trailing zero of `m`. */
  lemma {:induction false} NodeAboveLeaf(n: nat, m: nat)
    requires 0 < m < n
    ensures LeafDirs(n, m - 1) == Repeat(TrailingZeros(m)) + NodeDirs(n, m)
    decreases n
  {
    var j := SplitTopBit(n);
    var k := Pow2(j);
    if m == k {
      TrailingZerosPow2(j);
      AllRight(j);
    } else if m < k {
      NodeAboveLeaf(k, m);
      Reassociate(Repeat(TrailingZeros(m)), NodeDirs(k, m), false);
    } else {
      NodeAboveLeaf(n - k, m - k);
      TrailingZerosTop(j, m - k);
      Reassociate(Repeat(TrailingZeros(m)), NodeDirs(n - k, m - k), true);
    }
  }

  /** The trailing zeros of `m` end below the first bit in which `m - 1` and `n - 1` differ. */
  lemma {:induction false} TrailingZerosInside(n: nat, m: nat)
    requires 0 < m < n
    ensures TrailingZeros(m) < BitLength(Xor(m - 1, n - 1))
    decreases n
  {
    hide BitLength, Xor, TrailingZeros, SplitPoint, Popcount, Shr;
    var j := SplitTopBit(n);
    var k := Pow2(j);
    if m <= k {
      VerifierDirsLeft(n, m - 1, j);
      if m == k { TrailingZerosPow2(j); } else { TrailingZerosTop(j, m); }
    } else {
      VerifierDirsRight(n, m - 1, j);
      TrailingZerosInside(n - k, m - k);
      TrailingZerosTop(j, m - k);
    }
  }

  lemma {:induction false} AllRight(j: nat)
    ensures LeafDirs(Pow2(j), Pow2(j) - 1) == Repeat(j)
  {
    if j == 0 {
    } else {
      SplitUnique(Pow2(j), j - 1);
      AllRight(j - 1);
    }
  }

  /** The recursive path to the node that ends at `m` is the decomposition of the consistency verifier. */
  lemma NodeDirsAreBits(n: nat, m: nat)
    requires 0 < m < n
    ensures ConsistencyInner(m, n) > 0
    ensures var inner, mask := ConsistencyInner(m, n), Shr(m - 1, TrailingZeros(m));
            NodeDirs(n, m) == Dirs(mask, inner, Popcount(Shr(mask, inner)))
  {
    hide LeafDirs, NodeDirs, Dirs, Popcount, Shr;
    NodeAboveLeaf(n, m);
    TrailingZerosInside(n, m);
    LeafDirsAreBits(n, m - 1);
    var s, inner, mask := TrailingZeros(m), ConsistencyInner(m, n), Shr(m - 1, TrailingZeros(m));
    ShrAdd(m - 1, s, inner);
    assert LeafDirs(n, m - 1)[s..] == NodeDirs(n, m);
    DirsShift(m - 1, s, inner, Popcount(Shr(mask, inner)));
  }

  /** Dropping the lowest directions shifts the index. */
  lemma {:induction false} DirsShift(index: nat, s: nat, inner: nat, border: nat)
    ensures Dirs(index, s + inner, border)[s..] == Dirs(Shr(index, s), inner, border)
    decreases inner, border
  {
    if border > 0 {
      DirsShift(index, s, inner, border - 1);
    } else if inner > 0 {
      DirsShift(index, s, inner - 1, 0);
      ShrAdd(index, s, inner - 1);
    }
  }

  predicate AllLeft(dirs: seq<bool>) {
    forall i :: 0 <= i < |dirs| ==> !dirs[i]
  }

  /** The path never turns right exactly when `m` is a power of two. */
  lemma {:induction false} AllLeftIsPowerOfTwo(n: nat, m: nat)
    requires 0 < m < n
    ensures AllLeft(NodeDirs(n, m)) <==> IsPowerOfTwo(m)
    decreases n
  {
    var j := SplitTopBit(n);
    var k := Pow2(j);
    var dirs := NodeDirs(n, m);
    if m <= k {
      if m == k {
        TrailingZerosPow2(j);
      } else {
        AllLeftIsPowerOfTwo(k, m);
        assert dirs[..|dirs| - 1] == NodeDirs(k, m);
        assert AllLeft(dirs) <==> AllLeft(NodeDirs(k, m));
      }
    } else {
      assert dirs[|dirs| - 1];
      TrailingZerosTop(j, m - k);
      Pow2Monotone(TrailingZeros(m), j);
    }
  }

  /** A path is no longer than the size has bits. */
  lemma {:induction false} LeafDirsLength(n: nat, m: nat)
    requires m < n
    ensures |LeafDirs(n, m)| <= BitLength(n - 1)
    decreases n
  {
    if n <= 1 {
    } else {
      var j := SplitTopBit(n);
      var k := Pow2(j);
      if m < k {
        PerfectDirs(j, m);
      } else {
        LeafDirsLength(n - k, m - k);
        BitLengthBelow(n - k - 1, j);
      }
    }
  }

  lemma NodeDirsLength(n: nat, m: nat)
    requires 0 < m < n
    ensures |NodeDirs(n, m)| <= BitLength(n)
  {
    NodeAboveLeaf(n, m);
    LeafDirsLength(n, m - 1);
    BitLengthMonotone(n - 1, n);
  }

  /** Node directions lead to a node that ends at `m`. */
  lemma {:induction false} WalkNode(lo: nat, hi: nat, m: nat, dirs: seq<bool>)
    requires lo < m <= hi && NodeDirs(hi - lo, m - lo) <= dirs
    ensures var w := Walk(lo, hi, dirs, |NodeDirs(hi - lo, m - lo)|);
            w.Node? && w.hi == m && (AllLeft(NodeDirs(hi - lo, m - lo)) ==> w.lo == lo)
    decreases hi - lo
  {
    hide SplitPoint;
    if m >= hi {
    } else {
      var path, mid := NodeDirs(hi - lo, m - lo), lo + SplitPoint(hi - lo);
      assert path[|path| - 1] == dirs[|path| - 1];
      if m <= mid {
        WalkNode(lo, mid, m, dirs);
        assert path[..|path| - 1] == NodeDirs(mid - lo, m - lo);
      } else {
        WalkNode(mid, hi, m, dirs);
      }
    }
  }
}
