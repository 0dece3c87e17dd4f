/**
 What the transparency log promises: generated proofs verify, verified inclusion proofs are
 genuine, and a verified consistency proof certifies exactly one prefix of the log, whose length
 depends on the length of the proof.
 */
module MerkleTheorems {
  import opened Bits
  import opened ByteStrings
  import opened Merkle
  import opened MerkleShape

  // --- the generators produce genuine paths ---

  lemma {:induction false} RangePathGenuine(H: Hash, log: seq<Bytes>, lo: nat, hi: nat, m: nat)
    requires lo <= m < hi <= |log|
    ensures var p, dirs := RangePath(H, log, lo, hi, m), LeafDirs(hi - lo, m - lo);
            |p| == |dirs| && Genuine(H, log, lo, hi, LeafHash(H, log[m]), dirs, p, |p|)
    decreases hi - lo
  {
    hide Genuine, RangeRoot, LeafHash, SplitPoint;
    if lo + 1 == hi {
      LoneLeaf(H, log, m);
    } else {
      var mid := lo + SplitPoint(hi - lo);
      var seed := LeafHash(H, log[m]);
      if m < mid {
        RangePathGenuine(H, log, lo, mid, m);
        GenuineExtend(H, log, lo, hi, seed, LeafDirs(mid - lo, m - lo), RangePath(H, log, lo, mid, m), false);
      } else {
        RangePathGenuine(H, log, mid, hi, m);
        GenuineExtend(H, log, lo, hi, seed, LeafDirs(hi - mid, m - mid), RangePath(H, log, mid, hi, m), true);
      }
    }
  }

  lemma RootGenuine(H: Hash, log: seq<Bytes>, lo: nat, hi: nat, dirs: seq<bool>, proof: seq<Bytes>)
    requires lo < hi <= |log|
    ensures Genuine(H, log, lo, hi, RangeRoot(H, log, lo, hi), dirs, proof, 0)
  {
  }

  lemma LoneLeaf(H: Hash, log: seq<Bytes>, m: nat)
    requires m < |log|
    ensures Genuine(H, log, m, m + 1, LeafHash(H, log[m]), [], [], 0)
  {
  }

  /** A genuine path of one half, with the root of the other half appended, is one of the whole. */
  lemma {:induction false} GenuineExtend(H: Hash, log: seq<Bytes>, lo: nat, hi: nat, seed: Bytes, dirs: seq<bool>,
                                         proof: seq<Bytes>, right: bool)
    requires lo + 1 < hi <= |log| && |dirs| == |proof|
    requires var mid := lo + SplitPoint(hi - lo);
             if right then Genuine(H, log, mid, hi, seed, dirs, proof, |proof|)
             else Genuine(H, log, lo, mid, seed, dirs, proof, |proof|)
    ensures var mid := lo + SplitPoint(hi - lo);
            var sibling := if right then RangeRoot(H, log, lo, mid) else RangeRoot(H, log, mid, hi);
            Genuine(H, log, lo, hi, seed, dirs + [right], proof + [sibling], |proof| + 1)
  {
    var mid := lo + SplitPoint(hi - lo);
    var sibling: Bytes := if right then RangeRoot(H, log, lo, mid) else RangeRoot(H, log, mid, hi);
    var dirs', proof' := dirs + [right], proof + [sibling];
    assert dirs'[..|dirs|] == dirs[..|dirs|] && proof'[..|proof|] == proof[..|proof|];
    if right {
      GenuinePrefix(H, log, mid, hi, seed, dirs, proof, dirs', proof', |proof|);
    } else {
      GenuinePrefix(H, log, lo, mid, seed, dirs, proof, dirs', proof', |proof|);
    }
  }

  /** `p` is the path from `seed` to the node that ends at `m`, led by `seed` itself unless `bare`. */
  ghost predicate NodeProof(H: Hash, log: seq<Bytes>, lo: nat, hi: nat, m: nat, seed: Bytes, p: seq<Bytes>, bare: bool)
    requires lo < m <= hi <= |log|
  {
    var dirs := NodeDirs(hi - lo, m - lo);
    if bare then |p| == |dirs| && Genuine(H, log, lo, hi, seed, dirs, p, |dirs|)
    else |p| == |dirs| + 1 && p[0] == seed && Genuine(H, log, lo, hi, seed, dirs, p[1..], |dirs|)
  }

  lemma {:induction false} NodeProofExtend(H: Hash, log: seq<Bytes>, lo: nat, hi: nat, m: nat, seed: Bytes,
                                           p: seq<Bytes>, bare: bool)
    requires lo < m < hi <= |log|
    requires var mid := lo + SplitPoint(hi - lo);
             if m <= mid then NodeProof(H, log, lo, mid, m, seed, p, bare)
                 else NodeProof(H, log, mid, hi, m, seed, p, bare)
    ensures var mid := lo + SplitPoint(hi - lo);
            var sibling := if m <= mid then RangeRoot(H, log, mid, hi) else RangeRoot(H, log, lo, mid);
            NodeProof(H, log, lo, hi, m, seed, p + [sibling], bare)
  {
    hide Genuine, RangeRoot, SplitPoint;
    var mid := lo + SplitPoint(hi - lo);
    var sibling: Bytes := if m <= mid then RangeRoot(H, log, mid, hi) else RangeRoot(H, log, lo, mid);
    var dirs := if m <= mid then NodeDirs(mid - lo, m - lo) else NodeDirs(hi - mid, m - mid);
    GenuineExtend(H, log, lo, hi, seed, dirs, if bare then p else p[1..], m > mid);
    if !bare { assert (p + [sibling])[1..] == p[1..] + [sibling]; }
  }

  /** A subproof omits the root of its node exactly when `b` is set and the path never turns right. */
  lemma {:induction false} SubproofGenuine(H: Hash, log: seq<Bytes>, lo: nat, hi: nat, m: nat, b: bool)
    returns (seed: Bytes)
    requires lo < m <= hi <= |log|
    ensures NodeProof(H, log, lo, hi, m, seed, Subproof(H, log, lo, hi, m, b), b && AllLeft(NodeDirs(hi - lo, m - lo)))
    decreases hi - lo
  {
    if m == hi {
      seed := RangeRoot(H, log, lo, hi);
    } else {
      var mid := lo + SplitPoint(hi - lo);
      var dirs := NodeDirs(hi - lo, m - lo);
      assert dirs[|dirs| - 1] == (m > mid);
      if m <= mid {
        seed := SubproofGenuine(H, log, lo, mid, m, b);
        AllLeftAppend(NodeDirs(mid - lo, m - lo));
        NodeProofExtend(H, log, lo, hi, m, seed, Subproof(H, log, lo, mid, m, b), b && AllLeft(dirs));
      } else {
        seed := SubproofGenuine(H, log, mid, hi, m, false);
        NodeProofExtend(H, log, lo, hi, m, seed, Subproof(H, log, mid, hi, m, false), false);
      }
    }
  }

  lemma AllLeftAppend(dirs: seq<bool>)
    ensures AllLeft(dirs + [false]) == AllLeft(dirs)
  {
    assert forall i :: 0 <= i < |dirs| ==> (dirs + [false])[i] == dirs[i];
  }

  lemma {:induction false} WalkPrefix(lo: nat, hi: nat, dirs: seq<bool>, dirs': seq<bool>, d: nat)
    requires lo < hi && d <= |dirs| && d <= |dirs'| && dirs[..d] == dirs'[..d]
    ensures Walk(lo, hi, dirs, d) == Walk(lo, hi, dirs', d)
    decreases d
  {
    if d > 0 && lo + 1 < hi {
      assert dirs[..d][d - 1] == dirs'[..d][d - 1];
      assert dirs[..d - 1] == dirs[..d][..d - 1] == dirs'[..d - 1];
      var mid := lo + SplitPoint(hi - lo);
      if dirs[d - 1] { WalkPrefix(mid, hi, dirs, dirs', d - 1); } else { WalkPrefix(lo, mid, dirs, dirs', d - 1); }
    }
  }

  /** A path has only one genuine proof. */
  lemma {:induction false} GenuineUnique(H: Hash, log: seq<Bytes>, lo: nat, hi: nat, seed: Bytes, seed': Bytes,
                                         dirs: seq<bool>, p: seq<Bytes>, p': seq<Bytes>, d: nat)
    requires lo < hi <= |log| && d <= |dirs| && d <= |p| && d <= |p'|
    requires Genuine(H, log, lo, hi, seed, dirs, p, d) && Genuine(H, log, lo, hi, seed', dirs, p', d)
    ensures seed == seed' && p[..d] == p'[..d]
    decreases d
  {
    if d == 0 {
    } else {
      var mid := lo + SplitPoint(hi - lo);
      if dirs[d - 1] {
        GenuineUnique(H, log, mid, hi, seed, seed', dirs, p, p', d - 1);
      } else {
        GenuineUnique(H, log, lo, mid, seed, seed', dirs, p, p', d - 1);
      }
      assert p[..d] == p[..d - 1] + [p[d - 1]] && p'[..d] == p'[..d - 1] + [p'[d - 1]];
    }
  }

  // --- inclusion ---

  /** Below the size limit every shift count fits the 32-bit operators. */
  lemma ShiftsFit(m: nat, n: nat)
    requires m < n <= MAX_TREE_SIZE
    ensures BitLength(Xor(m, n - 1)) <= 31
  {
    assert Pow2(8) == 0x100 && Pow2(16) == 0x1_0000 && Pow2(24) == 0x100_0000 && Pow2(31) == 0x8000_0000;
    XorBelow(31, m, n - 1);
    BitLengthBelow(Xor(m, n - 1), 31);
  }

  /** The inclusion verifier folds the proof along the path to leaf `m`. */
  lemma InclusionVerifierFolds(H: Hash, m: nat, n: nat, leaf: Bytes, proof: seq<Bytes>, root: Bytes)
    requires m < n <= MAX_TREE_SIZE
    ensures AcceptsInclusion(H, m, n, leaf, proof, root) <==>
            |proof| == |LeafDirs(n, m)| && FoldAll(H, LeafHash(H, leaf), LeafDirs(n, m), proof, |proof|) == root
  {
    ShiftsFit(m, n);
    LeafDirsAreBits(n, m);
    var inner := BitLength(Xor(m, n - 1));
    ChainWholeFolds(H, LeafHash(H, leaf), proof, m, inner, Popcount(Shr32(m, inner)));
  }

  lemma ChainWholeFolds(H: Hash, leaf: Bytes, proof: seq<Bytes>, index: nat, inner: nat, border: nat)
    requires inner <= 32
    ensures ChainWhole(H, leaf, proof, index, inner, border) ==
            if |proof| != inner + border then None
            else Some(FoldAll(H, leaf, Dirs(index, inner, border), proof, |proof|))
  {
    if |proof| == inner + border { ChainsAreFolds(H, leaf, proof, index, inner); }
  }

  /** Every generated audit path is accepted. */
  lemma InclusionComplete(H: Hash, log: seq<Bytes>, m: nat)
    requires m < |log| <= MAX_TREE_SIZE
    ensures InclusionProof(H, log, m).Some?
            && AcceptsInclusion(H, m, |log|, log[m], InclusionProof(H, log, m).value, MerkleRoot(H, log))
  {
    hide RangePath, LeafDirs, RangeRoot, Genuine, FoldAll, AcceptsInclusion, LeafHash;
    var n, proof, dirs := |log|, RangePath(H, log, 0, |log|, m), LeafDirs(|log|, m);
    RangePathGenuine(H, log, 0, n, m);
    GenuineFoldAll(H, log, 0, n, LeafHash(H, log[m]), dirs, proof, |proof|);
    InclusionVerifierFolds(H, m, n, log[m], proof, MerkleRoot(H, log));
  }

  /** `inputs` holds what is hashed to compute the root of `log` and to check an inclusion proof. */
  ghost predicate HoldsInclusion(inputs: set<Bytes>, H: Hash, log: seq<Bytes>, m: nat, leaf: Bytes, proof: seq<Bytes>)
    requires m < |log| && |proof| == |LeafDirs(|log|, m)|
  {
    && LeafInput(leaf) in inputs
    && HoldsTree(inputs, H, log, 0, |log|)
    && HoldsFold(inputs, H, LeafHash(H, leaf), LeafDirs(|log|, m), proof, |proof|)
  }

  /**
   An accepted inclusion proof against the true root names the entry at index `m` and is the generated
   path, or two of the byte strings that were hashed collide.
   */
  lemma InclusionSound(H: Hash, log: seq<Bytes>, m: nat, leaf: Bytes, proof: seq<Bytes>, inputs: set<Bytes>)
    requires m < |log| && AcceptsInclusion(H, m, |log|, leaf, proof, MerkleRoot(H, log))
    ensures |proof| == |LeafDirs(|log|, m)|
    ensures HoldsInclusion(inputs, H, log, m, leaf, proof) ==>
              Collision(H, inputs) || (leaf == log[m] && InclusionProof(H, log, m) == Some(proof))
  {
    InclusionVerifierFolds(H, m, |log|, leaf, proof, MerkleRoot(H, log));
    if HoldsInclusion(inputs, H, log, m, leaf, proof) && !Collision(H, inputs) {
      FoldSound(H, log, 0, |log|, LeafHash(H, leaf), LeafDirs(|log|, m), proof, |proof|, inputs);
      GenuineLeaf(H, log, m, leaf, proof, inputs);
    }
  }

  /** A genuine path from a leaf digest is the generated one, and the leaf is the entry. */
  lemma GenuineLeaf(H: Hash, log: seq<Bytes>, m: nat, leaf: Bytes, proof: seq<Bytes>, inputs: set<Bytes>)
    requires m < |log| && |proof| == |LeafDirs(|log|, m)|
    requires Genuine(H, log, 0, |log|, LeafHash(H, leaf), LeafDirs(|log|, m), proof, |proof|)
    requires LeafInput(leaf) in inputs && HoldsTree(inputs, H, log, 0, |log|)
    ensures leaf == log[m] || Collision(H, inputs)
    ensures proof == RangePath(H, log, 0, |log|, m)
  {
    hide Genuine, LeafHash, LeafDirs, RangePath, LeafInput, HoldsTree;
    var n, proof' := |log|, RangePath(H, log, 0, |log|, m);
    RangePathGenuine(H, log, 0, n, m);
    GenuineUnique(H, log, 0, n, LeafHash(H, leaf), LeafHash(H, log[m]), LeafDirs(n, m), proof, proof', |proof|);
    assert proof[..|proof|] == proof && proof'[..|proof'|] == proof';
    HoldsLeaf(inputs, H, log, 0, n, m);
    LeafHashInjective(H, inputs, leaf, log[m]);
  }

  lemma LeafHashInjective(H: Hash, inputs: set<Bytes>, a: Bytes, b: Bytes)
    requires LeafInput(a) in inputs && LeafInput(b) in inputs && LeafHash(H, a) == LeafHash(H, b)
    ensures a == b || Collision(H, inputs)
  {
    Collide(H, inputs, LeafInput(a), LeafInput(b));
    assert a == LeafInput(a)[1..] && b == LeafInput(b)[1..];
  }

  lemma {:induction false} HoldsLeaf(inputs: set<Bytes>, H: Hash, log: seq<Bytes>, lo: nat, hi: nat, m: nat)
    requires lo <= m < hi <= |log| && HoldsTree(inputs, H, log, lo, hi)
    ensures LeafInput(log[m]) in inputs
    decreases hi - lo
  {
    if lo + 1 >= hi {
    } else {
      var mid := lo + SplitPoint(hi - lo);
      if m < mid { HoldsLeaf(inputs, H, log, lo, mid, m); } else { HoldsLeaf(inputs, H, log, mid, hi, m); }
    }
  }

  // --- consistency ---

  /** The directions the consistency verifier uses for `q` path elements. */
  function ConsistencyDirs(m: nat, n: nat, q: nat): (dirs: seq<bool>)
    requires 0 < m < n
    ensures |dirs| == q
  {
    TrailingZerosInside(n, m);
    InnerDirs(Shr(m - 1, TrailingZeros(m)), ConsistencyInner(m, n), q)
  }

  /** `q` directions, of which at most `inner` are bits of `index`. */
  function InnerDirs(index: nat, inner: nat, q: nat): (dirs: seq<bool>)
    ensures |dirs| == q
  {
    if q < inner then Dirs(index, q, 0) else Dirs(index, inner, q - inner)
  }

  lemma ChainsMatchFolds(H: Hash, seed: Bytes, p: seq<Bytes>, inner: nat, mask: nat, root1: Bytes, root2: Bytes)
    requires inner <= 32
    ensures var dirs := InnerDirs(mask, inner, |p|);
            ChainsMatch(H, seed, p, if |p| < inner then |p| else inner, mask, root1, root2) <==>
            FoldLeft(H, seed, dirs, p, |p|) == root1 && FoldAll(H, seed, dirs, p, |p|) == root2
  {
    ChainsAreFolds(H, seed, p, mask, if |p| < inner then |p| else inner);
  }

  /** The consistency verifier folds the proof along its directions. */
  lemma ConsistencyVerifierFolds(H: Hash, m: nat, n: nat, proof: seq<Bytes>, root1: Bytes, root2: Bytes)
    requires 0 < m < n <= MAX_TREE_SIZE
    ensures AcceptsGrowth(H, m, n, proof, root1, root2) <==>
            && (IsPowerOfTwo(m) || proof != [])
            && |proof| <= 2 * BitLength(n) + 1
            && var p, seed := PathOf(m, proof), SeedOf(m, proof, root1);
               var dirs := ConsistencyDirs(m, n, |p|);
               FoldLeft(H, seed, dirs, p, |p|) == root1 && FoldAll(H, seed, dirs, p, |p|) == root2
  {
    ShiftsFit(m - 1, n);
    TrailingZerosInside(n, m);
    if IsPowerOfTwo(m) || proof != [] {
      ChainsMatchFolds(H, SeedOf(m, proof, root1), PathOf(m, proof), ConsistencyInner(m, n),
                       Shr32(m - 1, TrailingZeros(m)), root1, root2);
    }
  }

  /** The node that a consistency proof of `k` elements for sizes `m` and `n` leads to. */
  function CertifiedNode(m: nat, n: nat, k: nat): (w: Place)
    requires 0 < m < n && (IsPowerOfTwo(m) || k > 0)
    ensures w.Node? ==> w.lo < w.hi <= n
  {
    var q := if IsPowerOfTwo(m) then k else k - 1;
    Walk(0, n, ConsistencyDirs(m, n, q), q)
  }

  /** The length of the proof that the generator makes for sizes `m` and `n`. */
  function ExactLength(m: nat, n: nat): nat
    requires 0 < m < n
  {
    |NodeDirs(n, m)| + if IsPowerOfTwo(m) then 0 else 1
  }

  lemma ExactDirs(m: nat, n: nat)
    requires 0 < m < n
    ensures ConsistencyDirs(m, n, |NodeDirs(n, m)|) == NodeDirs(n, m)
  {
    NodeDirsAreBits(n, m);
  }

  /** At the exact length the certified node ends at `m`. */
  lemma ExactLengthCertifies(m: nat, n: nat)
    requires 0 < m < n
    ensures var w := CertifiedNode(m, n, ExactLength(m, n)); w.Node? && w.hi == m && (IsPowerOfTwo(m) ==> w.lo == 0)
  {
    ExactDirs(m, n);
    AllLeftIsPowerOfTwo(n, m);
    WalkNode(0, n, m, NodeDirs(n, m));
  }

  /** `inputs` holds what is hashed for the roots of `log` and of its first `hi` entries, and by the verifier. */
  ghost predicate HoldsConsistency(inputs: set<Bytes>, H: Hash, log: seq<Bytes>, m: nat, proof: seq<Bytes>,
                                   root1: Bytes)
    requires 0 < m < |log| && (IsPowerOfTwo(m) || proof != [])
  {
    var p, w := PathOf(m, proof), CertifiedNode(m, |log|, |proof|);
    && HoldsTree(inputs, H, log, 0, |log|)
    && (w.Node? ==> HoldsTree(inputs, H, log, 0, w.hi))
    && HoldsFold(inputs, H, SeedOf(m, proof, root1), ConsistencyDirs(m, |log|, |p|), p, |p|)
  }

  /**
   Whatever the length of an accepted proof, its first root is the root of the prefix that
   `CertifiedNode` computes from `m`, `n` and that length, or two hashed byte strings collide.
   */
  lemma ConsistencyCertifies(H: Hash, log: seq<Bytes>, m: nat, proof: seq<Bytes>, root1: Bytes, inputs: set<Bytes>)
    requires 0 < m < |log| && AcceptsConsistency(H, m, |log|, proof, root1, MerkleRoot(H, log))
    ensures IsPowerOfTwo(m) || proof != []
    ensures |SeedOf(m, proof, root1)| == 32 && HoldsConsistency(inputs, H, log, m, proof, root1) ==>
              || Collision(H, inputs)
              || (var w := CertifiedNode(m, |log|, |proof|);
                  w.Node? && root1 == MerkleRoot(H, log[..w.hi]) && (IsPowerOfTwo(m) ==> w.lo == 0))
  {
    var n := |log|;
    ConsistencyVerifierFolds(H, m, n, proof, root1, MerkleRoot(H, log));
    var p, seed := PathOf(m, proof), SeedOf(m, proof, root1);
    if |seed| == 32 && HoldsConsistency(inputs, H, log, m, proof, root1) && !Collision(H, inputs) {
      var dirs := ConsistencyDirs(m, n, |p|);
      FoldSound(H, log, 0, n, seed, dirs, p, |p|, inputs);
      GenuineFoldLeft(H, log, 0, n, seed, dirs, p, |p|);
      var w := CertifiedNode(m, n, |proof|);
      PrefixRoot(H, log, w.hi);
      if IsPowerOfTwo(m) && w.lo != 0 {
        HoldsNode(inputs, H, log, 0, n, dirs, |p|);
        RootsTellSizes(H, log, w.lo, w.hi, 0, w.hi, inputs);
      }
    }
  }

  lemma {:induction false} HoldsNode(inputs: set<Bytes>, H: Hash, log: seq<Bytes>, lo: nat, hi: nat, dirs: seq<bool>,
                                     d: nat)
    requires lo < hi <= |log| && d <= |dirs| && HoldsTree(inputs, H, log, lo, hi)
    ensures var w := Walk(lo, hi, dirs, d); w.Node? ==> HoldsTree(inputs, H, log, w.lo, w.hi)
    decreases d
  {
    if d > 0 && lo + 1 < hi {
      var mid := lo + SplitPoint(hi - lo);
      assert HoldsTree(inputs, H, log, lo, mid) && HoldsTree(inputs, H, log, mid, hi);
      if dirs[d - 1] {
        HoldsNode(inputs, H, log, mid, hi, dirs, d - 1);
      } else {
        HoldsNode(inputs, H, log, lo, mid, dirs, d - 1);
      }
    }
  }

  /** Ranges of different sizes have different roots, or two hashed byte strings collide. */
  lemma {:induction false} RootsTellSizes(H: Hash, log: seq<Bytes>, a: nat, b: nat, c: nat, d: nat, inputs: set<Bytes>)
    requires a <= b <= |log| && c <= d <= |log| && b - a != d - c
    requires HoldsTree(inputs, H, log, a, b) && HoldsTree(inputs, H, log, c, d)
    requires RangeRoot(H, log, a, b) == RangeRoot(H, log, c, d)
    ensures Collision(H, inputs)
    decreases b - a
  {
    var x, y := RootInput(H, log, a, b), RootInput(H, log, c, d);
    Collide(H, inputs, x, y);
    if x == y {
      InputsTellKind(H, log, a, b, c, d);
      var e, f := a + SplitPoint(b - a), c + SplitPoint(d - c);
      NodeInputInjective(RangeRoot(H, log, a, e), RangeRoot(H, log, e, b), RangeRoot(H, log, c, f),
                         RangeRoot(H, log, f, d));
      if e - a != f - c { RootsTellSizes(H, log, a, e, c, f, inputs); }
          else { RootsTellSizes(H, log, e, b, f, d, inputs); }
    }
  }

  /** The prefixes separate the empty tree, a leaf and an inner node. */
  lemma InputsTellKind(H: Hash, log: seq<Bytes>, a: nat, b: nat, c: nat, d: nat)
    requires a <= b <= |log| && c <= d <= |log| && b - a != d - c
    requires RootInput(H, log, a, b) == RootInput(H, log, c, d)
    ensures a + 1 < b && c + 1 < d
  {
    var x, y := RootInput(H, log, a, b), RootInput(H, log, c, d);
    assert a == b <==> |x| == 0;
    assert c == d <==> |y| == 0;
    if a < b && c < d {
      assert a + 1 == b <==> x[0] == 0;
      assert c + 1 == d <==> y[0] == 0;
    }
  }

  /** The siblings of a node, bottom-up. */
  function Copath(H: Hash, log: seq<Bytes>, lo: nat, hi: nat, dirs: seq<bool>): (p: seq<Bytes>)
    requires lo < hi <= |log| && Walk(lo, hi, dirs, |dirs|).Node?
    ensures |p| == |dirs|
    decreases |dirs|
  {
    if dirs == [] then []
    else
      var i, mid := |dirs| - 1, lo + SplitPoint(hi - lo);
      assert dirs[..i][..i] == dirs[..i];
      if dirs[i] then
        WalkPrefix(mid, hi, dirs, dirs[..i], i);
        Copath(H, log, mid, hi, dirs[..i]) + [RangeRoot(H, log, lo, mid)]
      else
        WalkPrefix(lo, mid, dirs, dirs[..i], i);
        Copath(H, log, lo, mid, dirs[..i]) + [RangeRoot(H, log, mid, hi)]
  }

  lemma {:induction false} CopathGenuine(H: Hash, log: seq<Bytes>, lo: nat, hi: nat, dirs: seq<bool>)
    requires lo < hi <= |log| && Walk(lo, hi, dirs, |dirs|).Node?
    ensures var w := Walk(lo, hi, dirs, |dirs|);
            Genuine(H, log, lo, hi, RangeRoot(H, log, w.lo, w.hi), dirs, Copath(H, log, lo, hi, dirs), |dirs|)
    decreases |dirs|
  {
    hide Genuine, RangeRoot, SplitPoint;
    if dirs == [] {
      RootGenuine(H, log, lo, hi, dirs, Copath(H, log, lo, hi, dirs));
    } else {
      var i, mid, w := |dirs| - 1, lo + SplitPoint(hi - lo), Walk(lo, hi, dirs, |dirs|);
      assert dirs[..i][..i] == dirs[..i];
      assert dirs == dirs[..i] + [dirs[i]];
      if dirs[i] {
        WalkPrefix(mid, hi, dirs, dirs[..i], i);
        CopathGenuine(H, log, mid, hi, dirs[..i]);
        GenuineExtend(H, log, lo, hi, RangeRoot(H, log, w.lo, w.hi), dirs[..i], Copath(H, log, mid, hi, dirs[..i]),
                      true);
      } else {
        WalkPrefix(lo, mid, dirs, dirs[..i], i);
        CopathGenuine(H, log, lo, mid, dirs[..i]);
        GenuineExtend(H, log, lo, hi, RangeRoot(H, log, w.lo, w.hi), dirs[..i], Copath(H, log, lo, mid, dirs[..i]),
                      false);
      }
    }
  }

  /** A proof of `k` elements that leads to the node `CertifiedNode(m, |log|, k)`. */
  function ProofOfLength(H: Hash, log: seq<Bytes>, m: nat, k: nat): (proof: seq<Bytes>)
    requires 0 < m < |log| && (IsPowerOfTwo(m) || k > 0)
    requires CertifiedNode(m, |log|, k).Node?
    ensures |proof| == k
  {
    var w := CertifiedNode(m, |log|, k);
    var q := if IsPowerOfTwo(m) then k else k - 1;
    var p := Copath(H, log, 0, |log|, ConsistencyDirs(m, |log|, q));
    if IsPowerOfTwo(m) then p else [RangeRoot(H, log, w.lo, w.hi)] + p
  }

  /** Conversely the verifier does accept the root of that prefix, whatever size `m` was claimed. */
  lemma ConsistencyAcceptsCertified(H: Hash, log: seq<Bytes>, m: nat, k: nat)
    requires 0 < m < |log| <= MAX_TREE_SIZE && k <= 2 * BitLength(|log|) + 1
    requires IsPowerOfTwo(m) || k > 0
    requires var w := CertifiedNode(m, |log|, k); w.Node? && (IsPowerOfTwo(m) ==> w.lo == 0)
    ensures AcceptsConsistency(H, m, |log|, ProofOfLength(H, log, m, k),
                               MerkleRoot(H, log[..CertifiedNode(m, |log|, k).hi]), MerkleRoot(H, log))
  {
    var n, w := |log|, CertifiedNode(m, |log|, k);
    var q := if IsPowerOfTwo(m) then k else k - 1;
    var dirs := ConsistencyDirs(m, n, q);
    var p, seed := Copath(H, log, 0, n, dirs), RangeRoot(H, log, w.lo, w.hi);
    CopathGenuine(H, log, 0, n, dirs);
    GenuineFoldAll(H, log, 0, n, seed, dirs, p, q);
    GenuineFoldLeft(H, log, 0, n, seed, dirs, p, q);
    PrefixRoot(H, log, w.hi);
    var proof, root1 := ProofOfLength(H, log, m, k), MerkleRoot(H, log[..w.hi]);
    assert PathOf(m, proof) == p;
    assert SeedOf(m, proof, root1) == seed;
    ConsistencyVerifierFolds(H, m, n, proof, root1, MerkleRoot(H, log));
  }

  /** The root of a prefix of another length is another root, or two hashed byte strings collide. */
  lemma PrefixRootsDiffer(H: Hash, log: seq<Bytes>, m: nat, hi: nat, inputs: set<Bytes>)
    requires m <= |log| && hi <= |log| && m != hi
    requires HoldsTree(inputs, H, log, 0, m) && HoldsTree(inputs, H, log, 0, hi)
    ensures MerkleRoot(H, log[..m]) != MerkleRoot(H, log[..hi]) || Collision(H, inputs)
  {
    PrefixRoot(H, log, m);
    PrefixRoot(H, log, hi);
    if RangeRoot(H, log, 0, m) == RangeRoot(H, log, 0, hi) { RootsTellSizes(H, log, 0, m, 0, hi, inputs); }
  }

  /** What is hashed along a genuine path is what is hashed for the tree. */
  lemma {:induction false} GenuineHolds(inputs: set<Bytes>, H: Hash, log: seq<Bytes>, lo: nat, hi: nat, seed: Bytes,
                                        dirs: seq<bool>, proof: seq<Bytes>, d: nat)
    requires lo < hi <= |log| && d <= |dirs| && d <= |proof|
    requires Genuine(H, log, lo, hi, seed, dirs, proof, d) && HoldsTree(inputs, H, log, lo, hi)
    ensures HoldsFold(inputs, H, seed, dirs, proof, d)
    decreases d
  {
    hide RangeRoot, NodeHash, NodeInput, SplitPoint;
    if d == 0 {
    } else {
      var mid := lo + SplitPoint(hi - lo);
      if dirs[d - 1] {
        GenuineFoldAll(H, log, mid, hi, seed, dirs, proof, d - 1);
        GenuineHolds(inputs, H, log, mid, hi, seed, dirs, proof, d - 1);
      } else {
        GenuineFoldAll(H, log, lo, mid, seed, dirs, proof, d - 1);
        GenuineHolds(inputs, H, log, lo, mid, seed, dirs, proof, d - 1);
      }
      assert FoldInput(H, seed, dirs, proof, d) == RootInput(H, log, lo, hi);
    }
  }

  /** An accepted proof with a seed of `w` bytes, all of whose hashed byte strings are in `inputs`. */
  ghost predicate Passes(inputs: set<Bytes>, H: Hash, log: seq<Bytes>, m: nat, proof: seq<Bytes>, root1: Bytes, w: nat)
    requires 0 < m < |log|
  {
    && AcceptsConsistency(H, m, |log|, proof, root1, MerkleRoot(H, log))
    && (IsPowerOfTwo(m) || proof != [])
    && |SeedOf(m, proof, root1)| == w && HoldsConsistency(inputs, H, log, m, proof, root1)
  }

  /**
   Lengths for which nothing can pass but the root of the first `m` entries: the verifier refuses the length,
   or it leads outside the tree, or to a node that a power of two cannot stand for, or to one that ends at `m`.
   */
  ghost predicate Telling(m: nat, n: nat, k: nat)
    requires 0 < m < n
  {
    || k > 2 * BitLength(n) + 1
    || (!IsPowerOfTwo(m) && k == 0)
    || (var w := CertifiedNode(m, n, k); w.Outside? || (IsPowerOfTwo(m) && w.lo != 0) || w.hi == m)
  }

  /**
   Unless hashed byte strings collide, acceptance with a seed as wide as a digest means the prefix root exactly for
   these lengths.
   */
  lemma ConsistencyExactly(H: Hash, log: seq<Bytes>, m: nat, k: nat, inputs: set<Bytes>)
    requires 0 < m < |log| <= MAX_TREE_SIZE && !Collision(H, inputs)
    requires forall hi :: 0 <= hi <= |log| ==> HoldsTree(inputs, H, log, 0, hi)
    ensures Telling(m, |log|, k) <==>
            forall proof, root1 :: |proof| == k && Passes(inputs, H, log, m, proof, root1, 32) ==>
                root1 == MerkleRoot(H, log[..m])
  {
    hide Collision, CertifiedNode, ProofOfLength, HoldsTree, Passes, MerkleRoot, IsPowerOfTwo, BitLength;
    if Telling(m, |log|, k) {
      forall proof, root1 | |proof| == k && Passes(inputs, H, log, m, proof, root1, 32)
        ensures root1 == MerkleRoot(H, log[..m])
      {
        TellingPasses(H, log, m, proof, root1, inputs);
      }
    } else {
      var hi := CertifiedNode(m, |log|, k).hi;
      CertifiedPasses(H, log, m, k, inputs);
      PrefixRootsDiffer(H, log, m, hi, inputs);
      assert MerkleRoot(H, log[..hi]) != MerkleRoot(H, log[..m]);
    }
  }

  lemma TellingPasses(H: Hash, log: seq<Bytes>, m: nat, proof: seq<Bytes>, root1: Bytes, inputs: set<Bytes>)
    requires 0 < m < |log| <= MAX_TREE_SIZE && Telling(m, |log|, |proof|) && Passes(inputs, H, log, m, proof, root1, 32)
    ensures root1 == MerkleRoot(H, log[..m]) || Collision(H, inputs)
  {
    hide Collision, CertifiedNode, HoldsConsistency, MerkleRoot, IsPowerOfTwo, BitLength, AcceptsConsistency, SeedOf;
    ConsistencyCertifies(H, log, m, proof, root1, inputs);
    LengthCapped(H, m, |log|, proof, root1, MerkleRoot(H, log));
  }

  lemma LengthCapped(H: Hash, m: nat, n: nat, proof: seq<Bytes>, root1: Bytes, root2: Bytes)
    requires 0 < m < n <= MAX_TREE_SIZE && AcceptsConsistency(H, m, n, proof, root1, root2)
    ensures |proof| <= 2 * BitLength(n) + 1
  {
    ConsistencyVerifierFolds(H, m, n, proof, root1, root2);
  }

  lemma CertifiedPasses(H: Hash, log: seq<Bytes>, m: nat, k: nat, inputs: set<Bytes>)
    requires 0 < m < |log| <= MAX_TREE_SIZE && k <= 2 * BitLength(|log|) + 1
    requires IsPowerOfTwo(m) || k > 0
    requires var w := CertifiedNode(m, |log|, k); w.Node? && (IsPowerOfTwo(m) ==> w.lo == 0)
    requires forall hi :: 0 <= hi <= |log| ==> HoldsTree(inputs, H, log, 0, hi)
    ensures Passes(inputs, H, log, m, ProofOfLength(H, log, m, k),
                   MerkleRoot(H, log[..CertifiedNode(m, |log|, k).hi]), 32)
  {
    hide HoldsTree, AcceptsConsistency, Walk;
    ConsistencyAcceptsCertified(H, log, m, k);
    var n, w := |log|, CertifiedNode(m, |log|, k);
    var q := if IsPowerOfTwo(m) then k else k - 1;
    var dirs := ConsistencyDirs(m, n, q);
    var p, seed := Copath(H, log, 0, n, dirs), RangeRoot(H, log, w.lo, w.hi);
    CopathGenuine(H, log, 0, n, dirs);
    GenuineHolds(inputs, H, log, 0, n, seed, dirs, p, q);
    PrefixRoot(H, log, w.hi);
    var proof, root1 := ProofOfLength(H, log, m, k), MerkleRoot(H, log[..w.hi]);
    assert PathOf(m, proof) == p;
    assert SeedOf(m, proof, root1) == seed;
  }

  /** With a proof of the exact length, acceptance does mean that the old log is a prefix. */
  lemma ConsistencySound(H: Hash, log: seq<Bytes>, m: nat, proof: seq<Bytes>, root1: Bytes, inputs: set<Bytes>)
    requires 0 < m < |log| && AcceptsConsistency(H, m, |log|, proof, root1, MerkleRoot(H, log))
    requires |proof| == ExactLength(m, |log|)
    ensures IsPowerOfTwo(m) || proof != []
    ensures |SeedOf(m, proof, root1)| == 32 && HoldsConsistency(inputs, H, log, m, proof, root1) ==>
              root1 == MerkleRoot(H, log[..m]) || Collision(H, inputs)
  {
    ConsistencyCertifies(H, log, m, proof, root1, inputs);
    ExactLengthCertifies(m, |log|);
  }

  /** Without the exact length it does not: one element, the new root itself, passes for any `m` with two set bits. */
  lemma ShortProofAccepted(H: Hash, log: seq<Bytes>, m: nat, inputs: set<Bytes>)
    requires 0 < m < |log| <= MAX_TREE_SIZE && !IsPowerOfTwo(m)
    requires HoldsTree(inputs, H, log, 0, m) && HoldsTree(inputs, H, log, 0, |log|)
    ensures MerkleRoot(H, log) != MerkleRoot(H, log[..m]) || Collision(H, inputs)
    ensures AcceptsConsistency(H, m, |log|, [MerkleRoot(H, log)], MerkleRoot(H, log), MerkleRoot(H, log))
    ensures ExactLength(m, |log|) != 1
  {
    var n := |log|;
    var root := MerkleRoot(H, log);
    ConsistencyVerifierFolds(H, m, n, [root], root, root);
    assert PathOf(m, [root]) == [];
    PrefixRootsDiffer(H, log, m, n, inputs);
    assert log[..n] == log;
  }

  lemma SubproofAccepted(H: Hash, log: seq<Bytes>, m: nat)
    requires 0 < m < |log| <= MAX_TREE_SIZE
    ensures AcceptsGrowth(H, m, |log|, Subproof(H, log, 0, |log|, m, true), RangeRoot(H, log, 0, m),
                          RangeRoot(H, log, 0, |log|))
  {
    var n, proof := |log|, Subproof(H, log, 0, |log|, m, true);
    var seed := SubproofGenuine(H, log, 0, n, m, true);
    AllLeftIsPowerOfTwo(n, m);
    NodeProofFolds(H, log, m, seed, PathOf(m, proof));
    ExactDirs(m, n);
    NodeDirsLength(n, m);
    ConsistencyVerifierFolds(H, m, n, proof, RangeRoot(H, log, 0, m), RangeRoot(H, log, 0, n));
  }

  lemma NodeProofFolds(H: Hash, log: seq<Bytes>, m: nat, seed: Bytes, p: seq<Bytes>)
    requires 0 < m < |log| && |p| == |NodeDirs(|log|, m)|
    requires Genuine(H, log, 0, |log|, seed, NodeDirs(|log|, m), p, |p|)
    ensures FoldAll(H, seed, NodeDirs(|log|, m), p, |p|) == RangeRoot(H, log, 0, |log|)
    ensures FoldLeft(H, seed, NodeDirs(|log|, m), p, |p|) == RangeRoot(H, log, 0, m)
    ensures IsPowerOfTwo(m) ==> seed == RangeRoot(H, log, 0, m)
  {
    var n, dirs := |log|, NodeDirs(|log|, m);
    AllLeftIsPowerOfTwo(n, m);
    WalkNode(0, n, m, dirs);
    GenuineFoldAll(H, log, 0, n, seed, dirs, p, |p|);
    GenuineFoldLeft(H, log, 0, n, seed, dirs, p, |p|);
  }

  /** Every generated consistency proof is accepted, for all sizes up to that of the log. */
  lemma ConsistencyComplete(H: Hash, log: seq<Bytes>, m: nat, n: nat)
    requires m <= n <= |log| && n <= MAX_TREE_SIZE
    ensures ConsistencyProof(H, log, m, n).Some?
    ensures AcceptsConsistency(H, m, n, ConsistencyProof(H, log, m, n).value, MerkleRoot(H, log[..m]),
                               MerkleRoot(H, log[..n]))
  {
    var part := log[..n];
    PrefixRoot(H, log, m);
    PrefixRoot(H, log, n);
    if 0 < m < n {
      SubproofAccepted(H, part, m);
      SubproofLocal(H, log, part, 0, n, m, true);
      RangeRootLocal(H, log, part, 0, m);
      RangeRootLocal(H, log, part, 0, n);
    }
  }

  function LeafPair(H: Hash, a: Bytes, b: Bytes): (pair: Bytes)
    ensures |pair| == 64
  {
    var l: Bytes, r: Bytes := LeafHash(H, a), LeafHash(H, b);
    l + r
  }

  /**
   The width of the first element matters as well, and is not checked: with 33 bytes for it and 31 for
   the next, a proof of the exact length passes for a first root over those 33 bytes.
   */
  lemma SeedWidthMatters(H: Hash, log: seq<Bytes>)
    requires |log| == 4
    ensures var left: Bytes := RangeRoot(H, log, 0, 2);
            var wide, narrow := LeafPair(H, log[2], log[3])[..33], LeafPair(H, log[2], log[3])[33..];
            && ExactLength(3, 4) == 3
            && AcceptsConsistency(H, 3, 4, [wide, narrow, left], NodeHash(H, left, wide), MerkleRoot(H, log))
            && NodeInput(left, wide) != RootInput(H, log, 0, 3)
  {
    var pair: Bytes := LeafPair(H, log[2], log[3]);
    var left: Bytes := RangeRoot(H, log, 0, 2);
    var proof: seq<Bytes> := [pair[..33], pair[33..], left];
    var root1 := NodeHash(H, left, pair[..33]);
    ShapeOfThreeInFour();
    assert PathOf(3, proof) == [pair[33..], left];
    WideSeedFolds(H, log, PathOf(3, proof));
    ConsistencyVerifierFolds(H, 3, 4, proof, root1, MerkleRoot(H, log));
    assert |NodeInput(left, pair[..33])| == 66 && |RootInput(H, log, 0, 3)| == 65;
  }

  lemma ShapeOfThreeInFour()
    ensures ExactLength(3, 4) == 3 && !IsPowerOfTwo(3) && BitLength(4) == 3
    ensures ConsistencyDirs(3, 4, 2) == [false, true]
  {
    assert NodeDirs(4, 3) == [false, true];
    ExactDirs(3, 4);
  }

  lemma WideSeedFolds(H: Hash, log: seq<Bytes>, p: seq<Bytes>)
    requires |log| == 4 && p == [LeafPair(H, log[2], log[3])[33..], RangeRoot(H, log, 0, 2)]
    ensures var wide, dirs := LeafPair(H, log[2], log[3])[..33], [false, true];
            && FoldAll(H, wide, dirs, p, 2) == RangeRoot(H, log, 0, 4)
            && FoldLeft(H, wide, dirs, p, 2) == NodeHash(H, RangeRoot(H, log, 0, 2), wide)
  {
    var pair, dirs := LeafPair(H, log[2], log[3]), [false, true];
    assert NodeInput(pair[..33], pair[33..]) == NodeInput(LeafHash(H, log[2]), LeafHash(H, log[3]));
    assert FoldAll(H, pair[..33], dirs, p, 1) == RangeRoot(H, log, 2, 4);
    assert FoldLeft(H, pair[..33], dirs, p, 1) == pair[..33];
  }
}
