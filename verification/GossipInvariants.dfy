/** What every handler of a gossip node keeps: bounded buffers, an exact index, one signature per height. */
module GossipInvariants {
  import opened Collections
  import opened Stake
  import opened Ledger
  import opened GossipSpec

  // --- the invariant ---

  /** Only admissible attestations of their hash, one for each validator. */
  ghost predicate PoolEntry(c: Config, hash: string, atts: seq<Attestation>) {
    && atts != []
    && DistinctVoters(atts)
    && forall i :: 0 <= i < |atts| ==> atts[i].blockHash == hash && Admissible(c, atts[i])
  }

  /** The pool is bounded, and the index is exactly its inverse and bounded for each validator. */
  ghost predicate PoolInv(c: Config, pool: map<string, seq<Attestation>>, byValidator: map<string, set<string>>) {
    && |pool| <= MAX_ATTESTED_HASHES
    && PoolEntries(c, pool)
    && byValidator == IndexOf(pool)
    && IndexBounded(byValidator)
  }

  ghost predicate PoolEntries(c: Config, pool: map<string, seq<Attestation>>) {
    forall h :: h in pool ==> PoolEntry(c, h, pool[h])
  }

  ghost predicate IndexBounded(index: map<string, set<string>>) {
    forall v :: v in index ==> |index[v]| <= MAX_HASHES_PER_VALIDATOR
  }

  ghost predicate KnownInv(c: Config, known: map<string, Block>, base: nat) {
    && |known| <= MAX_KNOWN_AT_HEIGHT
    && forall h :: h in known ==> HashOf(c, known[h]) == h && known[h].header.height == base
  }

  ghost predicate DistinctBlocks(c: Config, blocks: seq<Block>) {
    forall i, j :: 0 <= i < j < |blocks| ==> HashOf(c, blocks[i]) != HashOf(c, blocks[j])
  }

  ghost predicate PendingEntry(c: Config, k: int, blocks: seq<Block>) {
    && 0 < |blocks| <= MAX_PENDING_PER_HEIGHT
    && DistinctBlocks(c, blocks)
    && forall i :: 0 <= i < |blocks| ==> blocks[i].header.height == k
  }

  ghost predicate PendingInv(c: Config, pending: map<int, seq<Block>>, first: nat, last: nat) {
    forall k :: k in pending ==> first <= k <= last && PendingEntry(c, k, pending[k])
  }

  /** One hash for each height was ever signed, and the one of height `base` is remembered. */
  ghost predicate SignedInv(attestedAt: map<int, string>, signed: set<(int, string)>, base: nat) {
    && (forall k :: k in attestedAt ==> k == base && (k, attestedAt[k]) in signed)
    && (forall k, h :: (k, h) in signed ==> k <= base && (k == base ==> base in attestedAt))
    && (forall k, h, h' :: (k, h) in signed && (k, h') in signed ==> h == h')
  }

  ghost predicate FinalizedAre(chain: seq<FinalizedBlock>, finalized: set<string>) {
    forall h :: h in finalized <==> exists i :: 0 <= i < |chain| && chain[i].hash == h
  }

  /** Attestations of staked validators, one for each. */
  ghost predicate Evidence(c: Config, atts: seq<Attestation>) {
    DistinctVoters(atts) && forall i :: 0 <= i < |atts| ==> Admissible(c, atts[i])
  }

  ghost predicate EvidenceKept(c: Config, chain: seq<FinalizedBlock>) {
    forall i :: 0 <= i < |chain| ==> Evidence(c, chain[i].attestations)
  }

  ghost predicate ChainInv(c: Config, chain: seq<FinalizedBlock>, finalized: set<string>) {
    && Linked(c.cx, c.set_, c.num, c.den, chain)
    && FinalizedAre(chain, finalized)
    && EvidenceKept(c, chain)
  }

  /** The invariant while the node works at height `base`, with buffered blocks from height `first` on. */
  ghost predicate NodeInv(c: Config, s: NodeState, base: nat, first: nat) {
    && base <= |s.chain| <= base + 1
    && ChainInv(c, s.chain, s.finalized)
    && PoolInv(c, s.pool, s.byValidator)
    && KnownInv(c, s.known, base)
    && SignedInv(s.attestedAt, s.signed, base)
    && PendingInv(c, s.pending, first, base + MAX_FUTURE_HEIGHTS)
    && |s.conflicts| <= MAX_OBSERVED_CONFLICTS
  }

  /** The invariant between messages: every buffer is about the current height or the window after it. */
  ghost predicate Quiet(c: Config, s: NodeState) {
    NodeInv(c, s, |s.chain|, |s.chain| + 1)
  }

  lemma InitialQuiet(c: Config)
    ensures Quiet(c, InitialNode())
  {
    assert IndexOf(map[]) == map[];
  }

  lemma QuietFiled(c: Config, s: NodeState, base: nat, first: nat)
    requires NodeInv(c, s, base, first)
    ensures Filed(s.pending)
  {
  }

  // --- the handlers keep it ---

  lemma TryFinalizeInv(c: Config, s: NodeState, base: nat, first: nat, hash: string)
    requires NodeInv(c, s, base, first)
    ensures NodeInv(c, TryFinalize(c, s, hash), base, first)
  {
    hide PoolInv, SignedInv, PendingInv, ChainInv, Submitted;
    var r := TryFinalize(c, s, hash);
    if r != s {
      assert KnownInv(c, s.known, base);
      EvidencePooled(c, s, hash);
      ChainGrows(c, s, s.known[hash], PoolAt(s.pool, hash));
    }
  }

  lemma EvidencePooled(c: Config, s: NodeState, hash: string)
    requires PoolInv(c, s.pool, s.byValidator)
    ensures Evidence(c, PoolAt(s.pool, hash))
  {
  }

  lemma ChainGrows(c: Config, s: NodeState, block: Block, atts: seq<Attestation>)
    requires ChainInv(c, s.chain, s.finalized) && Evidence(c, atts)
    ensures var chain := Submitted(c.cx, c.set_, c.suite, c.num, c.den, s.chain, block, atts);
            chain != s.chain ==> ChainInv(c, chain, s.finalized + {HashOf(c, block)})
  {
    hide Submitted, Linked, Evidence;
    SubmittedLinked(c.cx, c.set_, c.suite, c.num, c.den, s.chain, block, atts);
    var chain := Submitted(c.cx, c.set_, c.suite, c.num, c.den, s.chain, block, atts);
    if chain != s.chain { FinalizedGrows(s.chain, s.finalized, chain[|s.chain|]); }
  }

  lemma FinalizedGrows(chain: seq<FinalizedBlock>, finalized: set<string>, fb: FinalizedBlock)
    requires FinalizedAre(chain, finalized)
    ensures FinalizedAre(chain + [fb], finalized + {fb.hash})
  {
    var next := chain + [fb];
    forall h
      ensures h in finalized + {fb.hash} <==> exists i :: 0 <= i < |next| && next[i].hash == h
    {
      if h in finalized {
        var i :| 0 <= i < |chain| && chain[i].hash == h;
        assert next[i].hash == h;
      }
      if h == fb.hash { assert next[|chain|].hash == h; }
    }
  }

  lemma AddToPoolInv(c: Config, s: NodeState, att: Attestation)
    requires PoolInv(c, s.pool, s.byValidator) && Poolable(c, s, att)
    ensures PoolInv(c, AddToPool(s, att).pool, AddToPool(s, att).byValidator)
  {
    PoolGrows(c, s.pool, att);
    IndexGrows(s.byValidator, att);
    AddToPoolIndex(s.pool, s.byValidator, att);
  }

  lemma PoolGrows(c: Config, pool: map<string, seq<Attestation>>, att: Attestation)
    requires PoolEntries(c, pool) && Admissible(c, att) && att.validator !in Voters(PoolAt(pool, att.blockHash))
    requires |pool| <= MAX_ATTESTED_HASHES && (att.blockHash in pool || |pool| < MAX_ATTESTED_HASHES)
    ensures var pool' := pool[att.blockHash := PoolAt(pool, att.blockHash) + [att]];
            PoolEntries(c, pool') && |pool'| <= MAX_ATTESTED_HASHES
  {
    var atts := PoolAt(pool, att.blockHash);
    PoolEntryGrows(c, atts, att);
    BoundedAdd(pool.Keys, att.blockHash, MAX_ATTESTED_HASHES);
    assert pool[att.blockHash := atts + [att]].Keys == pool.Keys + {att.blockHash};
  }

  lemma IndexGrows(index: map<string, set<string>>, att: Attestation)
    requires IndexBounded(index)
    requires att.blockHash in HashesAt(index, att.validator)
             || |HashesAt(index, att.validator)| < MAX_HASHES_PER_VALIDATOR
    ensures IndexBounded(index[att.validator := HashesAt(index, att.validator) + {att.blockHash}])
  {
    BoundedAdd(HashesAt(index, att.validator), att.blockHash, MAX_HASHES_PER_VALIDATOR);
  }

  lemma BoundedAdd(s: set<string>, x: string, bound: nat)
    requires |s| <= bound && (x in s || |s| < bound)
    ensures |s + {x}| <= bound
  {
    if x in s { assert s + {x} == s; }
  }

  lemma PoolEntryGrows(c: Config, atts: seq<Attestation>, att: Attestation)
    requires atts == [] || PoolEntry(c, att.blockHash, atts)
    requires Admissible(c, att) && att.validator !in Voters(atts)
    ensures PoolEntry(c, att.blockHash, atts + [att])
  {
    forall i | 0 <= i < |atts|
      ensures atts[i].validator != att.validator
    {
      assert atts[i] in atts;
    }
  }

  lemma VotersAppend(atts: seq<Attestation>, att: Attestation)
    ensures Voters(atts + [att]) == Voters(atts) + {att.validator}
  {
    forall v
      ensures v in Voters(atts + [att]) <==> v in Voters(atts) + {att.validator}
    {
      if v in Voters(atts) {
        var a :| a in atts && a.validator == v;
        assert a in atts + [att];
      }
      if v == att.validator { assert att in atts + [att]; }
    }
  }

  /** Pooling an attestation updates the index to the inverse of the new pool. */
  lemma AddToPoolIndex(pool: map<string, seq<Attestation>>, index: map<string, set<string>>, att: Attestation)
    requires index == IndexOf(pool)
    ensures index[att.validator := HashesAt(index, att.validator) + {att.blockHash}]
            == IndexOf(pool[att.blockHash := PoolAt(pool, att.blockHash) + [att]])
  {
    var pool' := pool[att.blockHash := PoolAt(pool, att.blockHash) + [att]];
    var index' := index[att.validator := HashesAt(index, att.validator) + {att.blockHash}];
    forall w
      ensures w in index' <==> w in VotersOf(pool')
      ensures w in index' ==> index'[w] == HashesOf(pool', w)
    {
      VotersAfter(pool, att, w);
      VotersByHashes(pool, w);
    }
    IndexIs(pool', index');
  }

  lemma IndexIs(pool: map<string, seq<Attestation>>, index: map<string, set<string>>)
    requires forall w :: w in index <==> w in VotersOf(pool)
    requires forall w :: w in index ==> index[w] == HashesOf(pool, w)
    ensures index == IndexOf(pool)
  {
  }

  lemma VotersAfter(pool: map<string, seq<Attestation>>, att: Attestation, w: string)
    ensures var pool' := pool[att.blockHash := PoolAt(pool, att.blockHash) + [att]];
            && HashesOf(pool', w) == (if w == att.validator then HashesOf(pool, w) + {att.blockHash}
                                      else HashesOf(pool, w))
            && (w in VotersOf(pool') <==> w in VotersOf(pool) || w == att.validator)
  {
    var pool' := pool[att.blockHash := PoolAt(pool, att.blockHash) + [att]];
    HashesAfter(pool, att, w);
    VotersByHashes(pool', w);
    VotersByHashes(pool, w);
  }

  lemma HashesAfter(pool: map<string, seq<Attestation>>, att: Attestation, w: string)
    ensures HashesOf(pool[att.blockHash := PoolAt(pool, att.blockHash) + [att]], w)
            == HashesOf(pool, w) + if w == att.validator then {att.blockHash} else {}
  {
    VotersAppend(PoolAt(pool, att.blockHash), att);
  }

  /** A validator is in the index exactly when it is pooled for some hash. */
  lemma VotersByHashes(pool: map<string, seq<Attestation>>, v: string)
    ensures v in VotersOf(pool) <==> HashesOf(pool, v) != {}
  {
    if v in VotersOf(pool) {
      var h, a :| h in pool && a in pool[h] && a.validator == v;
      assert v in Voters(pool[h]);
      assert h in HashesOf(pool, v);
    }
    if HashesOf(pool, v) != {} {
      var h :| h in HashesOf(pool, v);
      var a :| a in pool[h] && a.validator == v;
      assert h in pool && a in pool[h];
    }
  }

  lemma OnAttestationInv(c: Config, s: NodeState, base: nat, first: nat, att: Attestation)
    requires NodeInv(c, s, base, first)
    ensures NodeInv(c, OnAttestation(c, s, att), base, first)
  {
    hide TryFinalize, PoolInv, ChainInv, KnownInv, SignedInv, PendingInv;
    if Poolable(c, s, att) {
      AddToPoolInv(c, s, att);
      TryFinalizeInv(c, AddToPool(s, att), base, first, att.blockHash);
    }
  }

  lemma BufferFutureInv(c: Config, s: NodeState, block: Block)
    requires Quiet(c, s) && block.header.height > |s.chain|
    ensures Quiet(c, BufferFuture(c, s, block))
  {
    var height := block.header.height;
    var list := PendingAt(s.pending, height);
    if BufferFuture(c, s, block) != s { PendingEntryGrows(c, list, block); }
  }

  lemma PendingEntryGrows(c: Config, list: seq<Block>, block: Block)
    requires list == [] || PendingEntry(c, block.header.height, list)
    requires |list| < MAX_PENDING_PER_HEIGHT
    requires !HasHash(c, list, HashOf(c, block))
    ensures PendingEntry(c, block.header.height, list + [block])
  {
  }

  lemma AttestOnceInv(c: Config, id: string, s: NodeState, base: nat, first: nat, block: Block)
    requires NodeInv(c, s, base, first) && |s.chain| == base && block.header.height == base
    ensures NodeInv(c, AttestOnce(c, id, s, block), base, first)
  {
    var h, height := HashOf(c, block), block.header.height;
    if height !in s.attestedAt && StakeOf(c.set_.validators, id) > 0 {
      var t := s.(attestedAt := s.attestedAt[height := h], signed := s.signed + {(height, h)});
      assert SignedInv(t.attestedAt, t.signed, base);
      OnAttestationInv(c, t, base, first, OwnAttestation(c, id, block));
    }
  }

  /** At height `base`, or after the chain moved on from it, blocks up to `base` keep the invariant. */
  lemma OnBlockInv(c: Config, id: string, s: NodeState, base: nat, first: nat, block: Block, flood: bool)
    requires NodeInv(c, s, base, first)
    requires block.header.height <= base
    ensures NodeInv(c, OnBlock(c, id, s, block, flood), base, first)
  {
    if block.header.height == |s.chain| && HashOf(c, block) !in s.known && |s.known| < MAX_KNOWN_AT_HEIGHT {
      StoreInv(c, id, s, base, first, block, flood);
    }
  }

  lemma StoreInv(c: Config, id: string, s: NodeState, base: nat, first: nat, block: Block, flood: bool)
    requires NodeInv(c, s, base, first)
    requires block.header.height == base == |s.chain| && |s.known| < MAX_KNOWN_AT_HEIGHT
    ensures var h := HashOf(c, block);
            var stored := s.(known := s.known[h := block], outbox := s.outbox + if flood then [BlockMsg(block)]
                             else []);
            NodeInv(c, TryFinalize(c, AttestOnce(c, id, stored, block), h), base, first)
  {
    hide TryFinalize, AttestOnce, ChainInv, PoolInv, SignedInv, PendingInv;
    var h := HashOf(c, block);
    var stored := s.(known := s.known[h := block], outbox := s.outbox + if flood then [BlockMsg(block)] else []);
    BoundedAdd(s.known.Keys, h, MAX_KNOWN_AT_HEIGHT);
    assert s.known[h := block].Keys == s.known.Keys + {h};
    AttestOnceInv(c, id, stored, base, first, block);
    TryFinalizeInv(c, AttestOnce(c, id, stored, block), base, first, h);
  }

  // --- pruning ---

  /** The first part of the drain: the invariant moves to the current height. */
  lemma PruneInv(c: Config, s: NodeState, base: nat, first: nat)
    requires NodeInv(c, s, base, first) && base < first
    ensures NodeInv(c, Prune(s), |s.chain|, |s.chain|)
    ensures |s.chain| == base ==> |s.chain| !in Prune(s).pending
  {
    var pool := s.pool - StaleKnown(s.known, |s.chain|);
    SubpoolInv(c, s.pool, s.byValidator, pool - StalePool(pool, |s.chain|));
    PruneKnownInv(c, s, base);
  }

  lemma PruneKnownInv(c: Config, s: NodeState, base: nat)
    requires base <= |s.chain| <= base + 1 && KnownInv(c, s.known, base)
    ensures KnownInv(c, s.known - StaleKnown(s.known, |s.chain|), |s.chain|)
  {
    SubsetSize((s.known - StaleKnown(s.known, |s.chain|)).Keys, s.known.Keys);
  }

  /** Dropping hashes from the pool and rebuilding the index keeps the invariant of the pool. */
  lemma SubpoolInv(c: Config, pool: map<string, seq<Attestation>>, index: map<string, set<string>>,
                   pool': map<string, seq<Attestation>>)
    requires PoolInv(c, pool, index)
    requires forall h :: h in pool' ==> h in pool && pool'[h] == pool[h]
    ensures PoolInv(c, pool', IndexOf(pool'))
  {
    SubsetSize(pool'.Keys, pool.Keys);
    forall v | v in VotersOf(pool')
      ensures |HashesOf(pool', v)| <= MAX_HASHES_PER_VALIDATOR
    {
      SmallerPoolIndex(pool, pool', v);
      assert index[v] == HashesOf(pool, v);
    }
  }

  lemma SmallerPoolIndex(pool: map<string, seq<Attestation>>, pool': map<string, seq<Attestation>>, v: string)
    requires forall h :: h in pool' ==> h in pool && pool'[h] == pool[h]
    requires v in VotersOf(pool')
    ensures v in VotersOf(pool) && |HashesOf(pool', v)| <= |HashesOf(pool, v)|
  {
    VotersByHashes(pool', v);
    VotersByHashes(pool, v);
    assert HashesOf(pool', v) <= HashesOf(pool, v);
    SubsetSize(HashesOf(pool', v), HashesOf(pool, v));
  }

  lemma {:induction false} ReplayInv(c: Config, id: string, s: NodeState, base: nat, first: nat, blocks: seq<Block>)
    requires NodeInv(c, s, base, first) && |s.chain| == base
    requires forall i :: 0 <= i < |blocks| ==> blocks[i].header.height == base
    ensures NodeInv(c, Replay(c, id, s, blocks), base, first)
    decreases |blocks|
  {
    if blocks == [] {
    } else {
      var n := |blocks| - 1;
      ReplayInv(c, id, s, base, first, blocks[..n]);
      OnBlockInv(c, id, Replay(c, id, s, blocks[..n]), base, first, blocks[n], false);
    }
  }

  /** The second part of the drain: the blocks that are due leave the buffer and are replayed. */
  lemma ReplayDueInv(c: Config, id: string, p: NodeState)
    requires NodeInv(c, p, |p.chain|, |p.chain|) && |p.chain| in p.pending
    ensures NodeInv(c, p.(pending := p.pending - {|p.chain|}), |p.chain|, |p.chain| + 1)
    ensures forall i :: 0 <= i < |p.pending[|p.chain|]| ==> p.pending[|p.chain|][i].header.height == |p.chain|
    ensures NodeInv(c, Replay(c, id, p.(pending := p.pending - {|p.chain|}), p.pending[|p.chain|]), |p.chain|,
                    |p.chain| + 1)
  {
    var height := |p.chain|;
    assert PendingEntry(c, height, p.pending[height]);
    ReplayInv(c, id, p.(pending := p.pending - {height}), height, height + 1, p.pending[height]);
  }

  lemma NothingDue(c: Config, p: NodeState)
    requires NodeInv(c, p, |p.chain|, |p.chain|) && |p.chain| !in p.pending
    ensures Quiet(c, p)
  {
  }

  /** A pass ends with the invariant at the height where it started. */
  lemma PassInv(c: Config, id: string, s: NodeState, base: nat)
    requires NodeInv(c, s, base, base + 1)
    ensures Filed(s.pending) && NodeInv(c, Pass(c, id, s), |s.chain|, |s.chain| + 1)
  {
    hide Prune, Replay, NodeInv, Filed;
    QuietFiled(c, s, base, base + 1);
    PruneInv(c, s, base, base + 1);
    PruneKeepsChain(s);
    var p := Prune(s);
    if |p.chain| in p.pending { ReplayDueInv(c, id, p); } else { NothingDue(c, p); }
  }

  lemma PruneKeepsChain(s: NodeState)
    ensures Prune(s).chain == s.chain
  {
  }

  /** Draining ends in a quiet state, at the original height or a later one. */
  lemma {:induction false} DrainInv(c: Config, id: string, s: NodeState, base: nat)
    requires NodeInv(c, s, base, base + 1)
    ensures Filed(s.pending) && Quiet(c, Drain(c, id, s)) && |Drain(c, id, s).chain| >= |s.chain|
    decreases |s.pending|
  {
    hide Pass, NodeInv, Filed;
    PassInv(c, id, s, base);
    var r := Pass(c, id, s);
    if |r.chain| == |s.chain| {
    } else {
      DrainInv(c, id, r, |s.chain|);
    }
  }

  /** Every delivered message, whatever it is, leads from a quiet state to a quiet state. */
  lemma OnMessageInv(c: Config, id: string, s: NodeState, m: GossipMessage)
    requires Quiet(c, s)
    ensures Filed(s.pending) && Quiet(c, OnMessage(c, id, s, m)) && |OnMessage(c, id, s, m).chain| >= |s.chain|
  {
    hide OnAttestation, BufferFuture, AttestOnce, TryFinalize, Drain, NodeInv, Filed;
    var base := |s.chain|;
    QuietFiled(c, s, base, base + 1);
    match m
    case BlockMsg(b) =>
      if b.header.height > base {
        BufferFutureInv(c, s, b);
      } else {
        OnBlockInv(c, id, s, base, base + 1, b, true);
      }
      DrainInv(c, id, OnBlock(c, id, s, b, true), base);
    case AttMsg(a) =>
      OnAttestationInv(c, s, base, base + 1, a);
      DrainInv(c, id, OnAttestation(c, s, a), base);
  }

  lemma ProposeInv(c: Config, id: string, s: NodeState, payloadRoot: string, timestamp: int)
    requires Quiet(c, s)
    ensures Filed(s.pending) && Quiet(c, ProposeIfLeader(c, id, s, payloadRoot, timestamp))
  {
    hide OnBlock, Drain, NodeInv, Filed;
    var base := |s.chain|;
    QuietFiled(c, s, base, base + 1);
    var block := Proposal(c, id, s, payloadRoot, timestamp);
    OnBlockInv(c, id, s, base, base + 1, block, true);
    DrainInv(c, id, OnBlock(c, id, s, block, true), base);
  }
}
