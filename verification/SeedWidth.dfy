/**
 The consistency verifier checks the width of no byte string. What an accepted proof means then depends on
 the width of the value that its fold starts from: this module says exactly how.
 */
module SeedWidth {
  import opened Bits
  import opened ByteStrings
  import opened Merkle
  import opened MerkleShape
  import opened MerkleTheorems

  // --- the lowest turn is always to the left ---

  lemma {:induction false} ShiftedEven(m: nat)
    requires m > 0
    ensures Shr(m - 1, TrailingZeros(m)) % 2 == 0
  {
    if m % 2 == 1 {
      assert TrailingZeros(m) == 0;
    } else {
      ShiftedEven(m / 2);
      assert (m - 1) / 2 == m / 2 - 1;
    }
  }

  lemma FirstLeft(m: nat, n: nat, q: nat)
    requires 0 < m < n && q > 0
    ensures !ConsistencyDirs(m, n, q)[0]
  {
    hide Shr, TrailingZeros, BitLength, Xor;
    TrailingZerosInside(n, m);
    ShiftedEven(m);
    var index, inner := Shr(m - 1, TrailingZeros(m)), ConsistencyInner(m, n);
    LowestBit(index);
    if q < inner { DirsAt(index, q, 0); } else { DirsAt(index, inner, q - inner); }
  }

  lemma LowestBit(x: nat)
    ensures Bit(x, 0) <==> x % 2 == 1
  {
  }

  // --- what a fold over values of any width shows ---

  /**
   A fold that reproduces the root of a tree ends at an inner node of it, and its lowest two values are as wide
   as two digests, unless two of the byte strings hashed on the way collide.
   */
  lemma {:induction false} LowestPair(H: Hash, log: seq<Bytes>, lo: nat, hi: nat, seed: Bytes, dirs: seq<bool>,
                                      proof: seq<Bytes>, d: nat, inputs: set<Bytes>)
    requires lo < hi <= |log| && 0 < d <= |dirs| && d <= |proof|
    requires FoldAll(H, seed, dirs, proof, d) == RangeRoot(H, log, lo, hi)
    requires HoldsTree(inputs, H, log, lo, hi) && HoldsFold(inputs, H, seed, dirs, proof, d)
    ensures Collision(H, inputs) || (Walk(lo, hi, dirs, d).Node? && |seed| + |proof[0]| == 64)
    decreases d
  {
    hide SplitPoint, RangeRoot, FoldAll, FoldInput, RootInput, Collision;
    if !Collision(H, inputs) {
      assert FoldInput(H, seed, dirs, proof, d) in inputs && RootInput(H, log, lo, hi) in inputs;
      if d == 1 {
        OneLevel(H, log, lo, hi, seed, dirs, proof, inputs);
      } else {
        FoldStep(H, log, lo, hi, seed, dirs, proof, d, inputs);
        var mid := lo + SplitPoint(hi - lo);
        assert HoldsTree(inputs, H, log, lo, mid) && HoldsTree(inputs, H, log, mid, hi);
        if dirs[d - 1] {
          LowestPair(H, log, mid, hi, seed, dirs, proof, d - 1, inputs);
        } else {
          LowestPair(H, log, lo, mid, seed, dirs, proof, d - 1, inputs);
        }
      }
    }
  }

  lemma OneLevel(H: Hash, log: seq<Bytes>, lo: nat, hi: nat, seed: Bytes, dirs: seq<bool>, proof: seq<Bytes>,
                 inputs: set<Bytes>)
    requires lo < hi <= |log| && |dirs| > 0 && |proof| > 0 && !Collision(H, inputs)
    requires FoldAll(H, seed, dirs, proof, 1) == RangeRoot(H, log, lo, hi)
    requires FoldInput(H, seed, dirs, proof, 1) in inputs && RootInput(H, log, lo, hi) in inputs
    ensures lo + 1 < hi && |seed| + |proof[0]| == 64
  {
    var x, y := FoldInput(H, seed, dirs, proof, 1), RootInput(H, log, lo, hi);
    Collide(H, inputs, x, y);
    assert x[0] == 1 && LeafInput(log[lo])[0] == 0;
  }

  // --- cutting the lowest pair elsewhere ---

  /** `seed` and `path` with the bytes of the lowest two values divided at `w`. */
  ghost predicate Recut(seed: Bytes, path: seq<Bytes>, seed': Bytes, path': seq<Bytes>) {
    && |path| == |path'| > 0 && seed + path[0] == seed' + path'[0]
    && forall i :: 1 <= i < |path| ==> path[i] == path'[i]
  }

  lemma {:induction false} RecutFolds(H: Hash, seed: Bytes, path: seq<Bytes>, seed': Bytes, path': seq<Bytes>,
                                      dirs: seq<bool>, d: nat, inputs: set<Bytes>)
    requires Recut(seed, path, seed', path') && 0 < d <= |path| && |dirs| == |path| && !dirs[0]
    ensures FoldAll(H, seed', dirs, path', d) == FoldAll(H, seed, dirs, path, d)
    ensures HoldsFold(inputs, H, seed, dirs, path, d) ==> HoldsFold(inputs, H, seed', dirs, path', d)
  {
    if d == 1 {
      assert NodeInput(seed, path[0]) == [1] + (seed + path[0]) == NodeInput(seed', path'[0]);
    } else {
      RecutFolds(H, seed, path, seed', path', dirs, d - 1, inputs);
    }
  }

  // --- the fold of the left siblings ---

  /** `inputs` holds every byte string hashed in the first `d` levels of a fold of the left siblings. */
  ghost predicate HoldsLeft(inputs: set<Bytes>, H: Hash, seed: Bytes, dirs: seq<bool>, proof: seq<Bytes>, d: nat)
    requires d <= |dirs| && d <= |proof|
  {
    d > 0 ==>
      && (dirs[d - 1] ==> NodeInput(proof[d - 1], FoldLeft(H, seed, dirs, proof, d - 1)) in inputs)
      && HoldsLeft(inputs, H, seed, dirs, proof, d - 1)
  }

  /** From a value that is not as wide as a digest, the left siblings fold to no root of a tree. */
  lemma {:induction false} LeftFoldNoRoot(H: Hash, log: seq<Bytes>, lo: nat, hi: nat, seed: Bytes, dirs: seq<bool>,
                                          proof: seq<Bytes>, d: nat, inputs: set<Bytes>)
    requires lo < hi <= |log| && d <= |dirs| && d <= |proof| && |seed| != 32
    requires forall i :: 0 <= i < d && dirs[i] ==> |proof[i]| == 32
    requires HoldsTree(inputs, H, log, lo, hi) && HoldsLeft(inputs, H, seed, dirs, proof, d)
    ensures FoldLeft(H, seed, dirs, proof, d) != RangeRoot(H, log, lo, hi) || Collision(H, inputs)
    decreases d
  {
    hide SplitPoint, RangeRoot, NodeHash, NodeInput, RootInput, Collision;
    if d == 0 {
    } else if !dirs[d - 1] {
      LeftFoldNoRoot(H, log, lo, hi, seed, dirs, proof, d - 1, inputs);
    } else {
      LeftFoldRight(H, log, lo, hi, seed, dirs, proof, d, inputs);
      if lo + 1 < hi {
        var mid := lo + SplitPoint(hi - lo);
        assert HoldsTree(inputs, H, log, mid, hi);
        LeftFoldNoRoot(H, log, mid, hi, seed, dirs, proof, d - 1, inputs);
      }
    }
  }

  lemma LeftFoldRight(H: Hash, log: seq<Bytes>, lo: nat, hi: nat, seed: Bytes, dirs: seq<bool>, proof: seq<Bytes>,
                      d: nat, inputs: set<Bytes>)
    requires lo < hi <= |log| && 0 < d <= |dirs| && d <= |proof| && dirs[d - 1] && |proof[d - 1]| == 32
    requires RootInput(H, log, lo, hi) in inputs
    requires NodeInput(proof[d - 1], FoldLeft(H, seed, dirs, proof, d - 1)) in inputs
    ensures FoldLeft(H, seed, dirs, proof, d) == RangeRoot(H, log, lo, hi) && !Collision(H, inputs) ==>
            && lo + 1 < hi
            && FoldLeft(H, seed, dirs, proof, d - 1) == RangeRoot(H, log, lo + SplitPoint(hi - lo), hi)
  {
    if FoldLeft(H, seed, dirs, proof, d) == RangeRoot(H, log, lo, hi) && !Collision(H, inputs) {
      var acc := FoldLeft(H, seed, dirs, proof, d - 1);
      var x, y := NodeInput(proof[d - 1], acc), RootInput(H, log, lo, hi);
      Collide(H, inputs, x, y);
      assert x[0] == 1 && LeafInput(log[lo])[0] == 0;
      var mid := lo + SplitPoint(hi - lo);
      NodeInputInjective(proof[d - 1], acc, RangeRoot(H, log, lo, mid), RangeRoot(H, log, mid, hi));
    }
  }

  /** Along the left edge the left siblings fold to the seed, and elsewhere to a digest. */
  lemma {:induction false} LeftFoldEdge(H: Hash, lo: nat, hi: nat, seed: Bytes, dirs: seq<bool>, proof: seq<Bytes>,
                                        d: nat)
    requires lo < hi && d <= |dirs| && d <= |proof| && Walk(lo, hi, dirs, d).Node?
    ensures var fold := FoldLeft(H, seed, dirs, proof, d);
            if Walk(lo, hi, dirs, d).lo == lo then fold == seed else |fold| == 32
    decreases d
  {
    hide SplitPoint;
    if d == 0 {
    } else {
      var mid := lo + SplitPoint(hi - lo);
      if !dirs[d - 1] { LeftFoldEdge(H, lo, mid, seed, dirs, proof, d - 1); }
    }
  }

  // --- proofs with a seed of any width up to two digests ---

  /** The siblings in a proof of `k` elements. */
  function Siblings(m: nat, k: nat): nat
    requires IsPowerOfTwo(m) || k > 0
  {
    if IsPowerOfTwo(m) then k else k - 1
  }

  /** A proof of `k` elements can lead to an inner node of the tree that stands for `m`. */
  predicate Reaching(m: nat, n: nat, k: nat)
    requires 0 < m < n
  {
    && k <= 2 * BitLength(n) + 1 && (IsPowerOfTwo(m) || k > 0) && Siblings(m, k) > 0
    && CertifiedNode(m, n, k).Node? && (IsPowerOfTwo(m) ==> CertifiedNode(m, n, k).lo == 0)
  }

  /** The genuine siblings for that length. */
  function GenuinePath(H: Hash, log: seq<Bytes>, m: nat, k: nat): (p: seq<Bytes>)
    requires 0 < m < |log| && Reaching(m, |log|, k)
    ensures |p| == Siblings(m, k)
  {
    Copath(H, log, 0, |log|, ConsistencyDirs(m, |log|, Siblings(m, k)))
  }

  function GenuineSeed(H: Hash, log: seq<Bytes>, m: nat, k: nat): Digest
    requires 0 < m < |log| && Reaching(m, |log|, k)
  {
    var node := CertifiedNode(m, |log|, k);
    RangeRoot(H, log, node.lo, node.hi)
  }

  /** The lowest two values of the genuine proof, one after the other. */
  function Pair(H: Hash, log: seq<Bytes>, m: nat, k: nat): Bytes
    requires 0 < m < |log| && Reaching(m, |log|, k)
  {
    var seed: Bytes := GenuineSeed(H, log, m, k);
    seed + GenuinePath(H, log, m, k)[0]
  }

  function CutSeed(H: Hash, log: seq<Bytes>, m: nat, k: nat, w: nat): Bytes
    requires 0 < m < |log| && Reaching(m, |log|, k) && w <= |Pair(H, log, m, k)|
  {
    Pair(H, log, m, k)[..w]
  }

  function CutPath(H: Hash, log: seq<Bytes>, m: nat, k: nat, w: nat): (p: seq<Bytes>)
    requires 0 < m < |log| && Reaching(m, |log|, k) && w <= |Pair(H, log, m, k)|
    ensures |p| == Siblings(m, k)
  {
    [Pair(H, log, m, k)[w..]] + GenuinePath(H, log, m, k)[1..]
  }

  /** The proof of `k` elements whose fold starts from the first `w` bytes of the pair. */
  function CutProof(H: Hash, log: seq<Bytes>, m: nat, k: nat, w: nat): (proof: seq<Bytes>)
    requires 0 < m < |log| && Reaching(m, |log|, k) && w <= |Pair(H, log, m, k)|
    ensures |proof| == k
  {
    if IsPowerOfTwo(m) then CutPath(H, log, m, k, w) else [CutSeed(H, log, m, k, w)] + CutPath(H, log, m, k, w)
  }

  /** The old root that this proof passes for. */
  function CutRoot(H: Hash, log: seq<Bytes>, m: nat, k: nat, w: nat): Bytes
    requires 0 < m < |log| && Reaching(m, |log|, k) && w <= |Pair(H, log, m, k)|
  {
    var q := Siblings(m, k);
    FoldLeft(H, CutSeed(H, log, m, k, w), ConsistencyDirs(m, |log|, q), CutPath(H, log, m, k, w), q)
  }

  lemma {:induction false} CopathDigests(H: Hash, log: seq<Bytes>, lo: nat, hi: nat, dirs: seq<bool>)
    requires lo < hi <= |log| && Walk(lo, hi, dirs, |dirs|).Node?
    ensures forall i :: 0 <= i < |dirs| ==> |Copath(H, log, lo, hi, dirs)[i]| == 32
    decreases |dirs|
  {
    hide SplitPoint, RangeRoot;
    if dirs == [] {
    } else {
      var i, mid := |dirs| - 1, lo + SplitPoint(hi - lo);
      assert dirs[..i][..i] == dirs[..i];
      if dirs[i] {
        WalkPrefix(mid, hi, dirs, dirs[..i], i);
        CopathDigests(H, log, mid, hi, dirs[..i]);
      } else {
        WalkPrefix(lo, mid, dirs, dirs[..i], i);
        CopathDigests(H, log, lo, mid, dirs[..i]);
      }
    }
  }

  lemma PairWidth(H: Hash, log: seq<Bytes>, m: nat, k: nat)
    requires 0 < m < |log| && Reaching(m, |log|, k)
    ensures |Pair(H, log, m, k)| == 64
    ensures forall i :: 0 <= i < Siblings(m, k) ==> |GenuinePath(H, log, m, k)[i]| == 32
  {
    hide Copath, RangeRoot;
    CopathDigests(H, log, 0, |log|, ConsistencyDirs(m, |log|, Siblings(m, k)));
  }

  lemma CutIsRecut(H: Hash, log: seq<Bytes>, m: nat, k: nat, w: nat)
    requires 0 < m < |log| && Reaching(m, |log|, k) && w <= |Pair(H, log, m, k)|
    ensures Recut(GenuineSeed(H, log, m, k), GenuinePath(H, log, m, k), CutSeed(H, log, m, k, w),
                  CutPath(H, log, m, k, w))
  {
    hide Reaching, GenuinePath, GenuineSeed;
    var pair := Pair(H, log, m, k);
    assert pair == pair[..w] + pair[w..];
  }

  /** What the verifier folds for this proof, and that everything hashed for it is hashed for the tree as well. */
  lemma CutFolds(H: Hash, log: seq<Bytes>, m: nat, k: nat, w: nat, inputs: set<Bytes>)
    requires 0 < m < |log| && Reaching(m, |log|, k) && w <= |Pair(H, log, m, k)|
    ensures var q, seed, p := Siblings(m, k), CutSeed(H, log, m, k, w), CutPath(H, log, m, k, w);
            var dirs := ConsistencyDirs(m, |log|, q);
            && FoldAll(H, seed, dirs, p, q) == MerkleRoot(H, log)
            && (HoldsTree(inputs, H, log, 0, |log|) ==> HoldsFold(inputs, H, seed, dirs, p, q))
            && (IsPowerOfTwo(m) ==> FoldLeft(H, seed, dirs, p, q) == seed)
  {
    hide RangeRoot, HoldsTree, HoldsFold, FoldAll, FoldLeft, Genuine, Copath, IsPowerOfTwo, BitLength;
    var n, q := |log|, Siblings(m, k);
    var dirs, seed, p := ConsistencyDirs(m, n, q), GenuineSeed(H, log, m, k), GenuinePath(H, log, m, k);
    FirstLeft(m, n, q);
    CutIsRecut(H, log, m, k, w);
    CopathGenuine(H, log, 0, n, dirs);
    GenuineFoldAll(H, log, 0, n, seed, dirs, p, q);
    if HoldsTree(inputs, H, log, 0, n) { GenuineHolds(inputs, H, log, 0, n, seed, dirs, p, q); }
    RecutFolds(H, seed, p, CutSeed(H, log, m, k, w), CutPath(H, log, m, k, w), dirs, q, inputs);
    LeftFoldEdge(H, 0, n, CutSeed(H, log, m, k, w), dirs, CutPath(H, log, m, k, w), q);
  }

  lemma CutParts(H: Hash, log: seq<Bytes>, m: nat, k: nat, w: nat)
    requires 0 < m < |log| && Reaching(m, |log|, k) && w <= |Pair(H, log, m, k)|
    requires IsPowerOfTwo(m) ==> CutRoot(H, log, m, k, w) == CutSeed(H, log, m, k, w)
    ensures var proof, root1 := CutProof(H, log, m, k, w), CutRoot(H, log, m, k, w);
            && (IsPowerOfTwo(m) || proof != [])
            && PathOf(m, proof) == CutPath(H, log, m, k, w) && SeedOf(m, proof, root1) == CutSeed(H, log, m, k, w)
  {
    hide Reaching, CutPath, CutSeed, CutRoot, Pair;
  }

  /** The verifier accepts that proof, for every width of the seed up to two digests. */
  lemma CutAccepted(H: Hash, log: seq<Bytes>, m: nat, k: nat, w: nat)
    requires 0 < m < |log| <= MAX_TREE_SIZE && Reaching(m, |log|, k) && w <= 64
    ensures |Pair(H, log, m, k)| == 64
    ensures var proof, root1 := CutProof(H, log, m, k, w), CutRoot(H, log, m, k, w);
            && AcceptsConsistency(H, m, |log|, proof, root1, MerkleRoot(H, log))
            && (IsPowerOfTwo(m) || proof != []) && |SeedOf(m, proof, root1)| == w
  {
    hide RangeRoot, FoldAll, FoldLeft, Copath, ConsistencyDirs, AcceptsGrowth, IsPowerOfTwo, MerkleRoot;
    PairWidth(H, log, m, k);
    CutFolds(H, log, m, k, w, {});
    CutParts(H, log, m, k, w);
    ConsistencyVerifierFolds(H, m, |log|, CutProof(H, log, m, k, w), CutRoot(H, log, m, k, w), MerkleRoot(H, log));
  }

  /** `inputs` holds what the verifier hashes for the old root of that proof. */
  ghost predicate HoldsCut(inputs: set<Bytes>, H: Hash, log: seq<Bytes>, m: nat, k: nat, w: nat)
    requires 0 < m < |log| && Reaching(m, |log|, k) && w <= |Pair(H, log, m, k)|
  {
    var q := Siblings(m, k);
    HoldsLeft(inputs, H, CutSeed(H, log, m, k, w), ConsistencyDirs(m, |log|, q), CutPath(H, log, m, k, w), q)
  }

  /** Unless the seed is as wide as a digest, its old root is not that of the first `m` entries, or strings collide. */
  lemma CutRootDiffers(H: Hash, log: seq<Bytes>, m: nat, k: nat, w: nat, inputs: set<Bytes>)
    requires 0 < m < |log| && Reaching(m, |log|, k) && w <= 64 && w != 32
    requires |Pair(H, log, m, k)| == 64
    requires HoldsTree(inputs, H, log, 0, m) && HoldsCut(inputs, H, log, m, k, w)
    ensures CutRoot(H, log, m, k, w) != MerkleRoot(H, log[..m]) || Collision(H, inputs)
  {
    hide RangeRoot, HoldsTree, HoldsLeft, FoldLeft, Reaching, GenuinePath, Pair;
    var q, seed, p := Siblings(m, k), CutSeed(H, log, m, k, w), CutPath(H, log, m, k, w);
    var dirs := ConsistencyDirs(m, |log|, q);
    PairWidth(H, log, m, k);
    FirstLeft(m, |log|, q);
    PrefixRoot(H, log, m);
    forall i | 0 <= i < q && dirs[i]
      ensures |p[i]| == 32
    {
      assert p[i] == GenuinePath(H, log, m, k)[i];
    }
    LeftFoldNoRoot(H, log, 0, m, seed, dirs, p, q, inputs);
  }

  // --- exactly when ---

  /**
   The widths of a seed at which nothing passes with a proof of `k` elements but the root of the first `m` entries.
   */
  ghost predicate TellingWidth(m: nat, n: nat, k: nat, w: nat)
    requires 0 < m < n
  {
    w > 64 || if w == 32 then Telling(m, n, k) else !Reaching(m, n, k)
  }

  /** A seed of another width than a digest passes only at a length that leads to an inner node, and up to 64 bytes. */
  lemma OtherWidths(H: Hash, log: seq<Bytes>, m: nat, proof: seq<Bytes>, root1: Bytes, w: nat, inputs: set<Bytes>)
    requires 0 < m < |log| <= MAX_TREE_SIZE && w != 32
    ensures Passes(inputs, H, log, m, proof, root1, w) ==>
            Collision(H, inputs) || (Reaching(m, |log|, |proof|) && w <= 64)
  {
    hide RangeRoot, HoldsTree, HoldsFold, FoldAll, FoldLeft, Walk, IsPowerOfTwo, BitLength, AcceptsGrowth;
    if Passes(inputs, H, log, m, proof, root1, w) {
      var n, p, seed := |log|, PathOf(m, proof), SeedOf(m, proof, root1);
      var dirs := ConsistencyDirs(m, n, |p|);
      ConsistencyVerifierFolds(H, m, n, proof, root1, MerkleRoot(H, log));
      if p == [] {
        NoFold(H, seed, dirs, p);
      } else {
        LowestPair(H, log, 0, n, seed, dirs, p, |p|, inputs);
        if !Collision(H, inputs) { LeftFoldEdge(H, 0, n, seed, dirs, p, |p|); }
      }
    }
  }

  lemma NoFold(H: Hash, seed: Bytes, dirs: seq<bool>, proof: seq<Bytes>)
    ensures FoldAll(H, seed, dirs, proof, 0) == seed
  {
  }

  lemma CutPasses(H: Hash, log: seq<Bytes>, m: nat, k: nat, w: nat, inputs: set<Bytes>)
    requires 0 < m < |log| <= MAX_TREE_SIZE && Reaching(m, |log|, k) && w <= 64
    requires forall hi :: 0 <= hi <= |log| ==> HoldsTree(inputs, H, log, 0, hi)
    ensures |Pair(H, log, m, k)| == 64
    ensures Passes(inputs, H, log, m, CutProof(H, log, m, k, w), CutRoot(H, log, m, k, w), w)
  {
    hide HoldsTree, HoldsFold, AcceptsConsistency, ConsistencyDirs, IsPowerOfTwo, MerkleRoot, FoldLeft, FoldAll;
    CutAccepted(H, log, m, k, w);
    CutFolds(H, log, m, k, w, inputs);
    CutParts(H, log, m, k, w);
    assert HoldsTree(inputs, H, log, 0, |log|);
  }

  /**
   Unless hashed byte strings collide: with a proof of `k` elements and a seed of `w` bytes, acceptance means the
   prefix root exactly at these lengths and widths.
   */
  lemma WidthsExactly(H: Hash, log: seq<Bytes>, m: nat, k: nat, w: nat, inputs: set<Bytes>)
    requires 0 < m < |log| <= MAX_TREE_SIZE && !Collision(H, inputs)
    requires forall hi :: 0 <= hi <= |log| ==> HoldsTree(inputs, H, log, 0, hi)
    requires Reaching(m, |log|, k) && w <= |Pair(H, log, m, k)| ==> HoldsCut(inputs, H, log, m, k, w)
    ensures TellingWidth(m, |log|, k, w) <==>
            forall proof, root1 :: |proof| == k && Passes(inputs, H, log, m, proof, root1, w) ==>
              root1 == MerkleRoot(H, log[..m])
  {
    hide Collision, HoldsTree, HoldsCut, Passes, MerkleRoot, Reaching, Telling, Pair, CutRoot, CutProof;
    if w == 32 {
      ConsistencyExactly(H, log, m, k, inputs);
    } else if TellingWidth(m, |log|, k, w) {
      forall proof, root1 | |proof| == k
        ensures !Passes(inputs, H, log, m, proof, root1, w)
      {
        OtherWidths(H, log, m, proof, root1, w, inputs);
      }
    } else {
      CutPasses(H, log, m, k, w, inputs);
      CutRootDiffers(H, log, m, k, w, inputs);
    }
  }

  lemma ExactReaching(m: nat, n: nat)
    requires 0 < m < n
    ensures Reaching(m, n, ExactLength(m, n)) && Telling(m, n, ExactLength(m, n))
  {
    ExactLengthCertifies(m, n);
    NodeDirsLength(n, m);
  }

  /** With a proof of the length that the generator makes: exactly for seeds of 32 bytes or of more than 64. */
  lemma ExactLengthWidths(H: Hash, log: seq<Bytes>, m: nat, w: nat, inputs: set<Bytes>)
    requires 0 < m < |log| <= MAX_TREE_SIZE && !Collision(H, inputs)
    requires forall hi :: 0 <= hi <= |log| ==> HoldsTree(inputs, H, log, 0, hi)
    requires var k := ExactLength(m, |log|);
             Reaching(m, |log|, k) && w <= |Pair(H, log, m, k)| ==> HoldsCut(inputs, H, log, m, k, w)
    ensures w == 32 || w > 64 <==>
            forall proof, root1 :: |proof| == ExactLength(m, |log|) && Passes(inputs, H, log, m, proof, root1, w) ==>
              root1 == MerkleRoot(H, log[..m])
  {
    hide Collision, HoldsTree, HoldsCut, Passes, MerkleRoot, Reaching, Telling, Pair, ExactLength;
    ExactReaching(m, |log|);
    WidthsExactly(H, log, m, ExactLength(m, |log|), w, inputs);
  }
}
