/**
 The Merkle tree of section 2.1 of RFC 6962: proofs are generated by recursive splitting and
 verified by decomposing the bits of the index. A proof, read bottom-up, is a list of sibling
 digests; a `dirs` list says for each level whether the path is the right child (true) or the
 left child (false). Both algorithms are related to such direction lists.
 */
module Merkle {
  import opened Bits
  import opened ByteStrings

  const MAX_TREE_SIZE: nat := 0x7FFF_FFFF

  function LeafInput(data: Bytes): Bytes { [0] + data }

  function NodeInput(l: Bytes, r: Bytes): Bytes { [1] + l + r }

  function LeafHash(H: Hash, data: Bytes): Digest { H(LeafInput(data)) }

  function NodeHash(H: Hash, l: Bytes, r: Bytes): Digest { H(NodeInput(l, r)) }

  function EmptyRoot(H: Hash): Digest { H([]) }

  /** The largest power of two strictly below `n`. */
  function SplitPoint(n: nat): (k: nat)
    requires n >= 2
    ensures 0 < k < n <= 2 * k
  {
    Doubled(1, n)
  }

  /** `k` doubled until twice its value reaches `n`. */
  function Doubled(k: nat, n: nat): (r: nat)
    requires 0 < k < n
    ensures 0 < r < n <= 2 * r
    decreases n - k
  {
    if k * 2 < n then Doubled(k * 2, n) else k
  }

  method ComputeSplitPoint(n: nat) returns (k: nat)
    requires n >= 2
    ensures k == SplitPoint(n)
  {
    k := 1;
    while k * 2 < n
      invariant 0 < k < n && Doubled(k, n) == SplitPoint(n)
      decreases n - k
    {
      k := k * 2;
    }
  }

  lemma {:induction false} DoubledUnique(i: nat, j: nat, n: nat)
    requires i <= j && Pow2(j) < n <= Pow2(j + 1)
    ensures Pow2(i) < n && Doubled(Pow2(i), n) == Pow2(j)
    decreases j - i
  {
    Pow2Monotone(i, j);
    if i >= j {
    } else {
      Pow2Monotone(i + 1, j);
      DoubledUnique(i + 1, j, n);
    }
  }

  lemma SplitUnique(n: nat, j: nat)
    requires Pow2(j) < n <= Pow2(j + 1)
    ensures n >= 2 && SplitPoint(n) == Pow2(j)
  {
    DoubledUnique(0, j, n);
  }

  /** The split point is the top bit of `n - 1`. */
  lemma SplitTopBit(n: nat) returns (j: nat)
    requires n >= 2
    ensures Pow2(j) < n <= Pow2(j + 1) && SplitPoint(n) == Pow2(j)
    ensures BitLength(n - 1) == j + 1
  {
    BitLengthBounds(n - 1);
    j := BitLength(n - 1) - 1;
    SplitUnique(n, j);
  }

  /** Every size between the split point and `n` splits at the same place. */
  lemma SplitShared(n: nat, n': nat)
    requires n >= 2 && SplitPoint(n) < n' <= n
    ensures SplitPoint(n') == SplitPoint(n)
  {
    var j := SplitTopBit(n);
    SplitUnique(n', j);
  }

  // --- generation: the recursive algorithm; a slice of the log is given by its bounds ---

  /** The root of the subtree over `log[lo..hi]`. */
  function RangeRoot(H: Hash, log: seq<Bytes>, lo: nat, hi: nat): Digest
    requires lo <= hi <= |log|
    decreases hi - lo
  {
    if lo == hi then EmptyRoot(H)
    else if lo + 1 == hi then LeafHash(H, log[lo])
    else
      var mid := lo + SplitPoint(hi - lo);
      NodeHash(H, RangeRoot(H, log, lo, mid), RangeRoot(H, log, mid, hi))
  }

  function MerkleRoot(H: Hash, entries: seq<Bytes>): Digest {
    RangeRoot(H, entries, 0, |entries|)
  }

  /** Audit path of entry `m` in the subtree over `log[lo..hi]`. */
  function RangePath(H: Hash, log: seq<Bytes>, lo: nat, hi: nat, m: nat): seq<Bytes>
    requires lo <= m < hi <= |log|
    decreases hi - lo
  {
    if lo + 1 == hi then []
    else
      var mid := lo + SplitPoint(hi - lo);
      if m < mid then RangePath(H, log, lo, mid, m) + [RangeRoot(H, log, mid, hi)]
      else RangePath(H, log, mid, hi, m) + [RangeRoot(H, log, lo, mid)]
  }

  function InclusionProof(H: Hash, entries: seq<Bytes>, m: int): Option<seq<Bytes>> {
    if m < 0 || m >= |entries| then None else Some(RangePath(H, entries, 0, |entries|, m))
  }

  function ConsistencyProof(H: Hash, entries: seq<Bytes>, m: int, n: int): Option<seq<Bytes>> {
    if m < 0 || m > n || n > |entries| then None
    else if m == 0 || m == n then Some([])
    else Some(Subproof(H, entries, 0, n, m, true))
  }

  function Subproof(H: Hash, log: seq<Bytes>, lo: nat, hi: nat, m: nat, b: bool): seq<Bytes>
    requires lo < m <= hi <= |log|
    decreases hi - lo
  {
    if m == hi then (if b then [] else [RangeRoot(H, log, lo, hi)])
    else
      var mid := lo + SplitPoint(hi - lo);
      if m <= mid then Subproof(H, log, lo, mid, m, b) + [RangeRoot(H, log, mid, hi)]
      else Subproof(H, log, mid, hi, m, false) + [RangeRoot(H, log, lo, mid)]
  }

  /** A range root depends on nothing but the entries of the range. */
  lemma {:induction false} RangeRootLocal(H: Hash, log: seq<Bytes>, log': seq<Bytes>, lo: nat, hi: nat)
    requires lo <= hi <= |log| && hi <= |log'|
    requires forall i :: lo <= i < hi ==> log[i] == log'[i]
    ensures RangeRoot(H, log, lo, hi) == RangeRoot(H, log', lo, hi)
    decreases hi - lo
  {
    if lo + 1 >= hi {
    } else {
      var mid := lo + SplitPoint(hi - lo);
      RangeRootLocal(H, log, log', lo, mid);
      RangeRootLocal(H, log, log', mid, hi);
    }
  }

  /** So does a generated proof. */
  lemma {:induction false} SubproofLocal(H: Hash, log: seq<Bytes>, log': seq<Bytes>, lo: nat, hi: nat, m: nat, b: bool)
    requires lo < m <= hi <= |log| && hi <= |log'|
    requires forall i :: lo <= i < hi ==> log[i] == log'[i]
    ensures Subproof(H, log, lo, hi, m, b) == Subproof(H, log', lo, hi, m, b)
    decreases hi - lo
  {
    hide RangeRoot;
    RangeRootLocal(H, log, log', lo, hi);
    if m >= hi {
    } else {
      var mid := lo + SplitPoint(hi - lo);
      if m <= mid {
        SubproofLocal(H, log, log', lo, mid, m, b);
        RangeRootLocal(H, log, log', mid, hi);
      } else {
        SubproofLocal(H, log, log', mid, hi, m, false);
        RangeRootLocal(H, log, log', lo, mid);
      }
    }
  }

  lemma PrefixRoot(H: Hash, log: seq<Bytes>, m: nat)
    requires m <= |log|
    ensures MerkleRoot(H, log[..m]) == RangeRoot(H, log, 0, m)
  {
    RangeRootLocal(H, log, log[..m], 0, m);
  }

  // --- verification: the bit decomposition ---

  function ChainInner(H: Hash, seed: Bytes, proof: seq<Bytes>, index: nat): Bytes {
    if proof == [] then seed
    else
      var i := |proof| - 1;
      var acc := ChainInner(H, seed, proof[..i], index);
      if Shr32(index, i) % 2 == 0 then NodeHash(H, acc, proof[i]) else NodeHash(H, proof[i], acc)
  }

  function ChainInnerRight(H: Hash, seed: Bytes, proof: seq<Bytes>, index: nat): Bytes {
    if proof == [] then seed
    else
      var i := |proof| - 1;
      var acc := ChainInnerRight(H, seed, proof[..i], index);
      if Shr32(index, i) % 2 == 1 then NodeHash(H, proof[i], acc) else acc
  }

  function ChainBorderRight(H: Hash, seed: Bytes, proof: seq<Bytes>): Bytes {
    if proof == [] then seed
    else
      var i := |proof| - 1;
      NodeHash(H, proof[i], ChainBorderRight(H, seed, proof[..i]))
  }

  method ComputeChainInner(H: Hash, seed: Bytes, proof: seq<Bytes>, index: nat) returns (acc: Bytes)
    ensures acc == ChainInner(H, seed, proof, index)
  {
    acc := seed;
    for i := 0 to |proof|
      invariant acc == ChainInner(H, seed, proof[..i], index)
    {
      assert proof[..i + 1][..i] == proof[..i];
      acc := if Shr32(index, i) % 2 == 0 then NodeHash(H, acc, proof[i]) else NodeHash(H, proof[i], acc);
    }
    assert proof[..|proof|] == proof;
  }

  method ComputeChainInnerRight(H: Hash, seed: Bytes, proof: seq<Bytes>, index: nat) returns (acc: Bytes)
    ensures acc == ChainInnerRight(H, seed, proof, index)
  {
    acc := seed;
    for i := 0 to |proof|
      invariant acc == ChainInnerRight(H, seed, proof[..i], index)
    {
      assert proof[..i + 1][..i] == proof[..i];
      if Shr32(index, i) % 2 == 1 { acc := NodeHash(H, proof[i], acc); }
    }
    assert proof[..|proof|] == proof;
  }

  method ComputeChainBorderRight(H: Hash, seed: Bytes, proof: seq<Bytes>) returns (acc: Bytes)
    ensures acc == ChainBorderRight(H, seed, proof)
  {
    acc := seed;
    for i := 0 to |proof|
      invariant acc == ChainBorderRight(H, seed, proof[..i])
    {
      assert proof[..i + 1][..i] == proof[..i];
      acc := NodeHash(H, proof[i], acc);
    }
    assert proof[..|proof|] == proof;
  }

  /** What the inclusion verifier recomputes, or `None` where it refuses the input. */
  function RootFromInclusion(H: Hash, m: int, n: int, leaf: Bytes, proof: seq<Bytes>): Option<Bytes> {
    if m < 0 || n < 0 || m >= n || n > MAX_TREE_SIZE then None
    else
      var inner := BitLength(Xor(m, n - 1));
      ChainWhole(H, leaf, proof, m, inner, Popcount(Shr32(m, inner)))
  }

  function ChainWhole(H: Hash, leaf: Bytes, proof: seq<Bytes>, index: nat, inner: nat, border: nat): Option<Bytes> {
    if |proof| != inner + border then None
    else Some(ChainBorderRight(H, ChainInner(H, leaf, proof[..inner], index), proof[inner..]))
  }

  predicate AcceptsInclusion(H: Hash, m: int, n: int, leaf: Bytes, proof: seq<Bytes>, root: Bytes) {
    RootFromInclusion(H, m, n, LeafHash(H, leaf), proof) == Some(root)
  }

  method VerifyInclusion(H: Hash, m: int, n: int, leaf: Bytes, proof: seq<Bytes>, root: Bytes) returns (ok: bool)
    ensures ok == AcceptsInclusion(H, m, n, leaf, proof, root)
  {
    if m < 0 || n < 0 || m >= n || n > MAX_TREE_SIZE { return false; }
    var inner := ComputeBitLength(Xor(m, n - 1));
    var border := ComputePopcount(Shr32(m, inner));
    if |proof| != inner + border { return false; }
    var res := ComputeChainInner(H, LeafHash(H, leaf), proof[..inner], m);
    res := ComputeChainBorderRight(H, res, proof[inner..]);
    ok := res == root;
  }

  /** The number of leading proof elements that `verifyConsistency` treats as inner. */
  function ConsistencyInner(m: nat, n: nat): int
    requires 0 < m < n
  {
    BitLength(Xor(m - 1, n - 1)) - TrailingZeros(m)
  }

  predicate IsPowerOfTwo(m: nat) {
    m == Pow2(TrailingZeros(m))
  }

  predicate AcceptsConsistency(H: Hash, m: int, n: int, proof: seq<Bytes>, root1: Bytes, root2: Bytes) {
    if m < 0 || n < 0 || m > n || n > MAX_TREE_SIZE then false
    else if m == n then proof == [] && root1 == root2
    else if m == 0 then proof == [] && root1 == EmptyRoot(H)
    else AcceptsGrowth(H, m, n, proof, root1, root2)
  }

  /** The bit-decomposition part of the check, for `0 < m < n`. */
  predicate AcceptsGrowth(H: Hash, m: nat, n: nat, proof: seq<Bytes>, root1: Bytes, root2: Bytes)
    requires 0 < m < n
  {
    && ConsistencyInner(m, n) >= 0
    && (IsPowerOfTwo(m) || proof != [])
    && |proof| <= 2 * BitLength(n) + 1
    && var p := PathOf(m, proof);
       var inner := if |p| < ConsistencyInner(m, n) then |p| else ConsistencyInner(m, n);
       ChainsMatch(H, SeedOf(m, proof, root1), p, inner, Shr32(m - 1, TrailingZeros(m)), root1, root2)
  }

  /** The fold starts at the old root, or at the first proof element. */
  function SeedOf(m: nat, proof: seq<Bytes>, root1: Bytes): Bytes
    requires IsPowerOfTwo(m) || proof != []
  {
    if IsPowerOfTwo(m) then root1 else proof[0]
  }

  function PathOf(m: nat, proof: seq<Bytes>): seq<Bytes>
    requires IsPowerOfTwo(m) || proof != []
  {
    if IsPowerOfTwo(m) then proof else proof[1..]
  }

  /** The two passes over the path: left siblings only against `root1`, all siblings against `root2`. */
  predicate ChainsMatch(H: Hash, seed: Bytes, p: seq<Bytes>, inner: nat, mask: nat, root1: Bytes, root2: Bytes)
    requires inner <= |p|
  {
    && ChainBorderRight(H, ChainInnerRight(H, seed, p[..inner], mask), p[inner..]) == root1
    && ChainBorderRight(H, ChainInner(H, seed, p[..inner], mask), p[inner..]) == root2
  }

  method MatchChains(H: Hash, seed: Bytes, p: seq<Bytes>, inner: nat, mask: nat, root1: Bytes, root2: Bytes)
    returns (ok: bool)
    requires inner <= |p|
    ensures ok == ChainsMatch(H, seed, p, inner, mask, root1, root2)
  {
    var hash1 := ComputeChainInnerRight(H, seed, p[..inner], mask);
    hash1 := ComputeChainBorderRight(H, hash1, p[inner..]);
    var hash2 := ComputeChainInner(H, seed, p[..inner], mask);
    hash2 := ComputeChainBorderRight(H, hash2, p[inner..]);
    ok := hash1 == root1 && hash2 == root2;
  }

  method VerifyConsistency(H: Hash, m: int, n: int, proof: seq<Bytes>, root1: Bytes, root2: Bytes)
    returns (ok: bool)
    ensures ok == AcceptsConsistency(H, m, n, proof, root1, root2)
  {
    if m < 0 || n < 0 || m > n || n > MAX_TREE_SIZE { return false; }
    if m == n { return proof == [] && root1 == root2; }
    if m == 0 { return proof == [] && root1 == EmptyRoot(H); }
    var inner: int := ComputeBitLength(Xor(m - 1, n - 1));
    var shift := ComputeTrailingZeros(m);
    inner := inner - shift;
    if inner < 0 { return false; }
    var seed, p := root1, proof;
    if m != Pow2(shift) {
      if proof == [] { return false; }
      seed, p := proof[0], proof[1..];
    }
    var mask := Shr32(m - 1, shift);
    var bound := ComputeBitLength(n);
    if |proof| > 2 * bound + 1 { return false; }
    if |p| < inner { inner := |p|; }
    ok := MatchChains(H, seed, p, inner, mask, root1, root2);
  }

  // --- direction lists ---

  /** The directions the bit decomposition uses: the low `inner` bits of `index`, then right turns. */
  function Dirs(index: nat, inner: nat, border: nat): (dirs: seq<bool>)
    ensures |dirs| == inner + border
    decreases inner, border
  {
    if border > 0 then Dirs(index, inner, border - 1) + [true]
    else if inner > 0 then Dirs(index, inner - 1, 0) + [Bit(index, inner - 1)]
    else []
  }

  lemma {:induction false} DirsAt(index: nat, inner: nat, border: nat)
    ensures forall i :: 0 <= i < inner + border ==> Dirs(index, inner, border)[i] == (i >= inner || Bit(index, i))
    decreases inner, border
  {
    if border > 0 { DirsAt(index, inner, border - 1); }
    else if inner > 0 { DirsAt(index, inner - 1, 0); }
  }

  /** The value of the whole tree, from the value of a node and `d` levels of siblings above it. */
  function FoldAll(H: Hash, seed: Bytes, dirs: seq<bool>, proof: seq<Bytes>, d: nat): (r: Bytes)
    requires d <= |dirs| && d <= |proof|
    ensures d > 0 || |seed| == 32 ==> |r| == 32
  {
    if d == 0 then seed
    else
      var acc := FoldAll(H, seed, dirs, proof, d - 1);
      if dirs[d - 1] then NodeHash(H, proof[d - 1], acc) else NodeHash(H, acc, proof[d - 1])
  }

  /** Folding the left siblings only: the value of the tree cut off to the right of the node. */
  function FoldLeft(H: Hash, seed: Bytes, dirs: seq<bool>, proof: seq<Bytes>, d: nat): Bytes
    requires d <= |dirs| && d <= |proof|
  {
    if d == 0 then seed
    else
      var acc := FoldLeft(H, seed, dirs, proof, d - 1);
      if dirs[d - 1] then NodeHash(H, proof[d - 1], acc) else acc
  }

  lemma {:induction false} InnerIsFold(H: Hash, seed: Bytes, proof: seq<Bytes>, dirs: seq<bool>, index: nat, d: nat)
    requires d <= |proof| && d <= |dirs| && d <= 32
    requires forall i :: 0 <= i < d ==> dirs[i] == Bit(index, i)
    ensures ChainInner(H, seed, proof[..d], index) == FoldAll(H, seed, dirs, proof, d)
    ensures ChainInnerRight(H, seed, proof[..d], index) == FoldLeft(H, seed, dirs, proof, d)
  {
    if d == 0 {
    } else {
      InnerIsFold(H, seed, proof, dirs, index, d - 1);
      assert proof[..d][..d - 1] == proof[..d - 1];
    }
  }

  lemma {:induction false} BorderIsFold(H: Hash, seed: Bytes, proof: seq<Bytes>, dirs: seq<bool>, inner: nat, d: nat)
    requires inner <= d <= |proof| && d <= |dirs|
    requires forall i :: inner <= i < d ==> dirs[i]
    ensures ChainBorderRight(H, FoldAll(H, seed, dirs, proof, inner), proof[inner..d])
            == FoldAll(H, seed, dirs, proof, d)
    ensures ChainBorderRight(H, FoldLeft(H, seed, dirs, proof, inner), proof[inner..d])
            == FoldLeft(H, seed, dirs, proof, d)
    decreases d
  {
    if inner >= d {
    } else {
      BorderIsFold(H, seed, proof, dirs, inner, d - 1);
      assert proof[inner..d][..d - 1 - inner] == proof[inner..d - 1];
    }
  }

  /** The two verifier passes are the two folds along the decomposed directions. */
  lemma ChainsAreFolds(H: Hash, seed: Bytes, proof: seq<Bytes>, index: nat, inner: nat)
    requires inner <= |proof| && inner <= 32
    ensures var dirs := Dirs(index, inner, |proof| - inner);
            && ChainBorderRight(H, ChainInner(H, seed, proof[..inner], index), proof[inner..])
               == FoldAll(H, seed, dirs, proof, |proof|)
            && ChainBorderRight(H, ChainInnerRight(H, seed, proof[..inner], index), proof[inner..])
               == FoldLeft(H, seed, dirs, proof, |proof|)
  {
    var dirs := Dirs(index, inner, |proof| - inner);
    DirsAt(index, inner, |proof| - inner);
    InnerIsFold(H, seed, proof, dirs, index, inner);
    BorderIsFold(H, seed, proof, dirs, inner, |proof|);
    assert proof[inner..|proof|] == proof[inner..];
  }

  // --- nodes of one tree ---

  /** Where the directions `dirs[..d]`, read from the top, lead in the subtree over `lo..hi`. */
  datatype Place = Outside | Node(lo: nat, hi: nat)

  function Walk(lo: nat, hi: nat, dirs: seq<bool>, d: nat): (w: Place)
    requires lo < hi && d <= |dirs|
    ensures w.Node? ==> lo <= w.lo < w.hi <= hi
    decreases d
  {
    if d == 0 then Node(lo, hi)
    else if lo + 1 == hi then Outside
    else
      var mid := lo + SplitPoint(hi - lo);
      if dirs[d - 1] then Walk(mid, hi, dirs, d - 1) else Walk(lo, mid, dirs, d - 1)
  }

  /** `seed` and `proof[..d]` are the roots of a node and of its siblings, up to the subtree `lo..hi`. */
  ghost predicate Genuine(H: Hash, log: seq<Bytes>, lo: nat, hi: nat, seed: Bytes, dirs: seq<bool>,
                          proof: seq<Bytes>, d: nat)
    requires lo < hi <= |log| && d <= |dirs| && d <= |proof|
    decreases d
  {
    if d == 0 then seed == RangeRoot(H, log, lo, hi)
    else
      && lo + 1 < hi
      && var mid := lo + SplitPoint(hi - lo);
         if dirs[d - 1] then
           proof[d - 1] == RangeRoot(H, log, lo, mid) && Genuine(H, log, mid, hi, seed, dirs, proof, d - 1)
         else
           proof[d - 1] == RangeRoot(H, log, mid, hi) && Genuine(H, log, lo, mid, seed, dirs, proof, d - 1)
  }

  /** A genuine path folds to the root. */
  lemma {:induction false} GenuineFoldAll(H: Hash, log: seq<Bytes>, lo: nat, hi: nat, seed: Bytes, dirs: seq<bool>,
                                          proof: seq<Bytes>, d: nat)
    requires lo < hi <= |log| && d <= |dirs| && d <= |proof|
    requires Genuine(H, log, lo, hi, seed, dirs, proof, d)
    ensures FoldAll(H, seed, dirs, proof, d) == RangeRoot(H, log, lo, hi)
    decreases d
  {
    hide SplitPoint, NodeHash;
    if d == 0 {
    } else {
      var mid := lo + SplitPoint(hi - lo);
      if dirs[d - 1] {
        GenuineFoldAll(H, log, mid, hi, seed, dirs, proof, d - 1);
      } else {
        GenuineFoldAll(H, log, lo, mid, seed, dirs, proof, d - 1);
      }
    }
  }

  /** The left part of a genuine path folds to the root of the prefix that its node ends at. */
  lemma {:induction false} GenuineFoldLeft(H: Hash, log: seq<Bytes>, lo: nat, hi: nat, seed: Bytes, dirs: seq<bool>,
                                           proof: seq<Bytes>, d: nat)
    requires lo < hi <= |log| && d <= |dirs| && d <= |proof|
    requires Genuine(H, log, lo, hi, seed, dirs, proof, d)
    ensures var w := Walk(lo, hi, dirs, d);
            && w.Node? && seed == RangeRoot(H, log, w.lo, w.hi)
            && FoldLeft(H, seed, dirs, proof, d) == RangeRoot(H, log, lo, w.hi)
    decreases d
  {
    hide SplitPoint, RangeRoot, NodeHash;
    if d == 0 {
    } else {
      var mid := lo + SplitPoint(hi - lo);
      if dirs[d - 1] {
        GenuineFoldLeft(H, log, mid, hi, seed, dirs, proof, d - 1);
        CutRoot(H, log, lo, hi, Walk(mid, hi, dirs, d - 1).hi);
      } else {
        GenuineFoldLeft(H, log, lo, mid, seed, dirs, proof, d - 1);
      }
    }
  }

  /** Cutting a subtree to the right of its split point cuts its right half. */
  lemma {:induction false} CutRoot(H: Hash, log: seq<Bytes>, lo: nat, hi: nat, cut: nat)
    requires lo + 1 < hi <= |log| && lo + SplitPoint(hi - lo) < cut <= hi
    ensures var mid := lo + SplitPoint(hi - lo);
            RangeRoot(H, log, lo, cut) == NodeHash(H, RangeRoot(H, log, lo, mid), RangeRoot(H, log, mid, cut))
  {
    SplitShared(hi - lo, cut - lo);
  }

  /** Only the first `d` directions and siblings matter. */
  lemma {:induction false} GenuinePrefix(H: Hash, log: seq<Bytes>, lo: nat, hi: nat, seed: Bytes,
                                         dirs: seq<bool>, proof: seq<Bytes>, dirs': seq<bool>, proof': seq<Bytes>,
                                         d: nat)
    requires lo < hi <= |log| && d <= |dirs| && d <= |proof| && d <= |dirs'| && d <= |proof'|
    requires dirs[..d] == dirs'[..d] && proof[..d] == proof'[..d]
    requires Genuine(H, log, lo, hi, seed, dirs, proof, d)
    ensures Genuine(H, log, lo, hi, seed, dirs', proof', d)
    decreases d
  {
    if d == 0 {
    } else {
      assert dirs[..d][d - 1] == dirs'[..d][d - 1] && proof[..d][d - 1] == proof'[..d][d - 1];
      assert dirs[..d - 1] == dirs[..d][..d - 1] == dirs'[..d - 1];
      assert proof[..d - 1] == proof[..d][..d - 1] == proof'[..d - 1];
      var mid := lo + SplitPoint(hi - lo);
      if dirs[d - 1] {
        GenuinePrefix(H, log, mid, hi, seed, dirs, proof, dirs', proof', d - 1);
      } else {
        GenuinePrefix(H, log, lo, mid, seed, dirs, proof, dirs', proof', d - 1);
      }
    }
  }

  // --- what was hashed ---

  /** The byte string hashed at level `d` of a fold. */
  ghost function FoldInput(H: Hash, seed: Bytes, dirs: seq<bool>, proof: seq<Bytes>, d: nat): Bytes
    requires 0 < d <= |dirs| && d <= |proof|
  {
    var acc := FoldAll(H, seed, dirs, proof, d - 1);
    if dirs[d - 1] then NodeInput(proof[d - 1], acc) else NodeInput(acc, proof[d - 1])
  }

  /** The byte string whose digest is the root of a subtree. */
  ghost function RootInput(H: Hash, log: seq<Bytes>, lo: nat, hi: nat): (x: Bytes)
    requires lo <= hi <= |log|
    ensures H(x) == RangeRoot(H, log, lo, hi)
  {
    if lo == hi then []
    else if lo + 1 == hi then LeafInput(log[lo])
    else
      var mid := lo + SplitPoint(hi - lo);
      NodeInput(RangeRoot(H, log, lo, mid), RangeRoot(H, log, mid, hi))
  }

  /** `inputs` holds every byte string hashed while computing `RangeRoot(H, log, lo, hi)`. */
  ghost predicate HoldsTree(inputs: set<Bytes>, H: Hash, log: seq<Bytes>, lo: nat, hi: nat)
    requires lo <= hi <= |log|
    decreases hi - lo
  {
    && RootInput(H, log, lo, hi) in inputs
    && (lo + 1 < hi ==>
          var mid := lo + SplitPoint(hi - lo);
          HoldsTree(inputs, H, log, lo, mid) && HoldsTree(inputs, H, log, mid, hi))
  }

  /** `inputs` holds every byte string hashed in the first `d` levels of a fold. */
  ghost predicate HoldsFold(inputs: set<Bytes>, H: Hash, seed: Bytes, dirs: seq<bool>, proof: seq<Bytes>, d: nat)
    requires d <= |dirs| && d <= |proof|
  {
    d > 0 ==> FoldInput(H, seed, dirs, proof, d) in inputs && HoldsFold(inputs, H, seed, dirs, proof, d - 1)
  }

  lemma Collide(H: Hash, inputs: set<Bytes>, x: Bytes, y: Bytes)
    requires x in inputs && y in inputs && H(x) == H(y)
    ensures x == y || Collision(H, inputs)
  {
    assert x == y || Collides(H, inputs, x, y);
  }

  lemma NodeInputInjective(a: Bytes, b: Bytes, c: Bytes, d: Bytes)
    requires NodeInput(a, b) == NodeInput(c, d)
    requires |a| == |c| || |b| == |d|
    ensures a == c && b == d
  {
    assert a + b == NodeInput(a, b)[1..] && c + d == NodeInput(c, d)[1..];
    SplitConcat(a, b, c, d);
  }

  /** One level: the top siblings agree with the children of the root, or two inputs collide. */
  lemma {:induction false} FoldStep(H: Hash, log: seq<Bytes>, lo: nat, hi: nat, seed: Bytes, dirs: seq<bool>,
                                    proof: seq<Bytes>, d: nat, inputs: set<Bytes>)
    requires lo < hi <= |log| && 0 < d <= |dirs| && d <= |proof| && (d > 1 || |seed| == 32)
    requires FoldAll(H, seed, dirs, proof, d) == RangeRoot(H, log, lo, hi)
    requires FoldInput(H, seed, dirs, proof, d) in inputs && RootInput(H, log, lo, hi) in inputs
    requires !Collision(H, inputs)
    ensures lo + 1 < hi
    ensures var mid, acc := lo + SplitPoint(hi - lo), FoldAll(H, seed, dirs, proof, d - 1);
            if dirs[d - 1] then proof[d - 1] == RangeRoot(H, log, lo, mid) && acc == RangeRoot(H, log, mid, hi)
            else acc == RangeRoot(H, log, lo, mid) && proof[d - 1] == RangeRoot(H, log, mid, hi)
  {
    var x, y := FoldInput(H, seed, dirs, proof, d), RootInput(H, log, lo, hi);
    Collide(H, inputs, x, y);
    assert x[0] == 1 && LeafInput(log[lo])[0] == 0;
    var mid, acc := lo + SplitPoint(hi - lo), FoldAll(H, seed, dirs, proof, d - 1);
    if dirs[d - 1] {
      NodeInputInjective(proof[d - 1], acc, RangeRoot(H, log, lo, mid), RangeRoot(H, log, mid, hi));
    } else {
      NodeInputInjective(acc, proof[d - 1], RangeRoot(H, log, lo, mid), RangeRoot(H, log, mid, hi));
    }
  }

  /**
   A fold that reproduces the root of a tree follows a genuine path of that tree, unless two of the
   byte strings hashed on the way collide.
   */
  lemma {:induction false} FoldSound(H: Hash, log: seq<Bytes>, lo: nat, hi: nat, seed: Bytes, dirs: seq<bool>,
                                     proof: seq<Bytes>, d: nat, inputs: set<Bytes>)
    requires lo < hi <= |log| && d <= |dirs| && d <= |proof| && |seed| == 32
    requires FoldAll(H, seed, dirs, proof, d) == RangeRoot(H, log, lo, hi)
    requires HoldsTree(inputs, H, log, lo, hi) && HoldsFold(inputs, H, seed, dirs, proof, d)
    ensures Collision(H, inputs) || Genuine(H, log, lo, hi, seed, dirs, proof, d)
    decreases d
  {
    hide SplitPoint, RangeRoot, RootInput, FoldInput, NodeHash, Collision;
    if d > 0 && !Collision(H, inputs) {
      assert FoldInput(H, seed, dirs, proof, d) in inputs && RootInput(H, log, lo, hi) in inputs;
      FoldStep(H, log, lo, hi, seed, dirs, proof, d, inputs);
      var mid := lo + SplitPoint(hi - lo);
      assert HoldsTree(inputs, H, log, lo, mid) && HoldsTree(inputs, H, log, mid, hi);
      if dirs[d - 1] {
        FoldSound(H, log, mid, hi, seed, dirs, proof, d - 1, inputs);
      } else {
        FoldSound(H, log, lo, mid, seed, dirs, proof, d - 1, inputs);
      }
    }
  }
}
