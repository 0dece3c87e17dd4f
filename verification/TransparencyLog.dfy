/**
 The append-only log, its signed tree heads, and the monitor that looks for split views.
 */
module TransparencyLog {
  import opened ByteStrings
  import opened Merkle
  import opened MerkleTheorems

  datatype InclusionWitness = InclusionWitness(index: nat, size: nat, leaf: Bytes, proof: seq<Bytes>, root: Bytes)

  datatype ConsistencyWitness = ConsistencyWitness(from: nat, to: nat, proof: seq<Bytes>, oldRoot: Bytes,
                                                   newRoot: Bytes)

  class Log {
    var entries: seq<Bytes>
    const H: Hash
    /** The root at every size the log has had, as `append` reported them. */
    ghost var heads: seq<Digest>

    ghost predicate Valid()
      reads this
    {
      && |heads| == |entries| + 1
      && forall i :: 0 <= i <= |entries| ==> heads[i] == MerkleRoot(H, entries[..i])
    }

    constructor (hash: Hash)
      ensures Valid() && entries == [] && H == hash
    {
      H := hash;
      entries := [];
      heads := [EmptyRoot(hash)];
    }

    method Append(data: Bytes) returns (index: nat, size: nat, root: Digest)
      requires Valid()
      modifies this
      ensures Valid()
      ensures entries == old(entries) + [data] && heads == old(heads) + [root]
      ensures index == |old(entries)| && size == |entries|
      ensures root == MerkleRoot(H, entries)
    {
      index := |entries|;
      entries := entries + [data];
      size := |entries|;
      root := MerkleRoot(H, entries);
      heads := heads + [root];
      assert entries[..|entries|] == entries;
      forall i | 0 <= i < |entries|
        ensures heads[i] == MerkleRoot(H, entries[..i])
      {
        assert entries[..i] == old(entries)[..i];
      }
    }

    /** Any entry, however old, has a witness that checks against the current root. */
    method ProveInclusion(index: int) returns (w: Option<InclusionWitness>)
      ensures w.Some? <==> 0 <= index < |entries|
      ensures w.Some? ==> w.value.index == index && w.value.size == |entries|
      ensures w.Some? ==> w.value.leaf == entries[index] && w.value.root == MerkleRoot(H, entries)
      ensures w.Some? && |entries| <= MAX_TREE_SIZE ==>
                AcceptsInclusion(H, w.value.index, w.value.size, w.value.leaf, w.value.proof, MerkleRoot(H, entries))
    {
      if index < 0 || index >= |entries| { return None; }
      w := Some(InclusionWitness(index, |entries|, entries[index], InclusionProof(H, entries, index).value,
                                 MerkleRoot(H, entries)));
      if |entries| <= MAX_TREE_SIZE { InclusionComplete(H, entries, index); }
    }

    /** A client that kept any earlier head can check that the log only grew since. */
    method ProveConsistency(fromSize: int) returns (w: Option<ConsistencyWitness>)
      requires Valid()
      ensures w.Some? <==> 0 <= fromSize <= |entries|
      ensures w.Some? ==> w.value.from == fromSize && w.value.to == |entries|
      ensures w.Some? ==> w.value.oldRoot == heads[fromSize] && w.value.newRoot == heads[|entries|]
      ensures w.Some? && |entries| <= MAX_TREE_SIZE ==>
                AcceptsConsistency(H, w.value.from, w.value.to, w.value.proof, heads[fromSize], heads[|entries|])
    {
      if fromSize < 0 || fromSize > |entries| { return None; }
      assert entries[..|entries|] == entries;
      var proof := ConsistencyProof(H, entries, fromSize, |entries|).value;
      w := Some(ConsistencyWitness(fromSize, |entries|, proof, MerkleRoot(H, entries[..fromSize]),
                                   MerkleRoot(H, entries)));
      if |entries| <= MAX_TREE_SIZE { ConsistencyComplete(H, entries, fromSize, |entries|); }
    }
  }

  // --- signed tree heads ---

  datatype TreeHead = TreeHead(operator: string, size: int, rootHex: string, suite: string, sig: Bytes)

  datatype Equivocation = Equivocation(operator: string, size: int, rootA: string, rootB: string)

  /** Two authentic heads of one operator for one size with different roots. */
  ghost predicate Conflict(authentic: TreeHead -> bool, a: TreeHead, b: TreeHead) {
    authentic(a) && authentic(b) && a.operator == b.operator && a.size == b.size && a.rootHex != b.rootHex
  }

  /** `seen` holds, for each operator and size, the root of an authentic head among the first `n`. */
  ghost predicate SeenHeads(seen: map<(string, int), string>, sths: seq<TreeHead>, n: nat, authentic: TreeHead -> bool)
    requires n <= |sths|
  {
    && (forall key :: key in seen ==>
          exists i :: && 0 <= i < n && authentic(sths[i])
                      && (sths[i].operator, sths[i].size) == key && sths[i].rootHex == seen[key])
    && (forall i :: 0 <= i < n && authentic(sths[i]) ==> (sths[i].operator, sths[i].size) in seen)
  }

  ghost predicate Reported(out: seq<Equivocation>, a: TreeHead) {
    exists k :: 0 <= k < |out| && out[k].operator == a.operator && out[k].size == a.size
  }

  /**
   The monitor names exactly the operators and sizes with a conflict between authentic heads: no
   forged head can accuse an operator, and no conflict is missed.
   */
  method DetectEquivocation(sths: seq<TreeHead>, authentic: TreeHead -> bool) returns (out: seq<Equivocation>)
    ensures forall e :: e in out ==> Witnessed(sths, authentic, e)
    ensures forall a, b :: a in sths && b in sths && Conflict(authentic, a, b) ==> Reported(out, a)
  {
    var seen: map<(string, int), string> := map[];
    out := [];
    for n := 0 to |sths|
      invariant SeenHeads(seen, sths, n, authentic)
      invariant forall e :: e in out ==> Witnessed(sths, authentic, e)
      invariant forall i :: (&& 0 <= i < n && authentic(sths[i])
                             && seen[(sths[i].operator, sths[i].size)] != sths[i].rootHex) ==>
                              Reported(out, sths[i])
    {
      var sth := sths[n];
      var key := (sth.operator, sth.size);
      if authentic(sth) {
        if key !in seen {
          seen := seen[key := sth.rootHex];
        } else if seen[key] != sth.rootHex {
          var prior := seen[key];
          ghost var i :| 0 <= i < n && authentic(sths[i]) && (sths[i].operator, sths[i].size) == key
            && sths[i].rootHex == prior;
          var e := Equivocation(sth.operator, sth.size, prior, sth.rootHex);
          assert Conflict(authentic, sths[i], sth);
          assert Witnessed(sths, authentic, e);
          ReportMore(out, e);
          out := out + [e];
        }
      }
    }
    forall a, b | a in sths && b in sths && Conflict(authentic, a, b)
      ensures Reported(out, a)
    {
      var i :| 0 <= i < |sths| && sths[i] == a;
      var j :| 0 <= j < |sths| && sths[j] == b;
      assert seen[(a.operator, a.size)] != a.rootHex || seen[(b.operator, b.size)] != b.rootHex;
    }
  }

  /** `e` names two authentic heads among `sths` that conflict. */
  ghost predicate Witnessed(sths: seq<TreeHead>, authentic: TreeHead -> bool, e: Equivocation) {
    exists a, b :: a in sths && b in sths && Conflict(authentic, a, b)
                   && e == Equivocation(a.operator, a.size, a.rootHex, b.rootHex)
  }

  lemma ReportMore(out: seq<Equivocation>, e: Equivocation)
    ensures forall a: TreeHead :: Reported(out, a) || (a.operator == e.operator && a.size == e.size) ==>
            Reported(out + [e], a)
  {
    forall a: TreeHead | Reported(out, a) || (a.operator == e.operator && a.size == e.size)
      ensures Reported(out + [e], a)
    {
      if Reported(out, a) {
        var k :| 0 <= k < |out| && out[k].operator == a.operator && out[k].size == a.size;
        assert (out + [e])[k] == out[k];
      } else {
        assert (out + [e])[|out|] == e;
      }
    }
  }
}
