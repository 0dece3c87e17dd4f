/**
 One gossip node as a value: the effect of each handler on the node's maps, its chain and the
 messages it floods. A `Map` keyed by validator keeps its insertion order, so the attestations of one
 block are a sequence without repeated validators.
 */
module GossipSpec {
  import opened ByteStrings
  import opened Collections
  import opened Stake
  import opened Ledger
  import Sortition

  const MAX_FUTURE_HEIGHTS: nat := 64
  const MAX_PENDING_PER_HEIGHT: nat := 64
  const MAX_KNOWN_AT_HEIGHT: nat := 64
  const MAX_OBSERVED_CONFLICTS: nat := 4096
  const MAX_ATTESTED_HASHES: nat := 4096
  const MAX_HASHES_PER_VALIDATOR: nat := 128

  datatype GossipMessage = BlockMsg(block: Block) | AttMsg(att: Attestation)

  datatype Conflict = Conflict(height: int, a: string, b: string)

  /** What all nodes share, and how the node with a given id signs. */
  datatype Config = Config(cx: Crypto, set_: ValidatorSet, suite: string, num: int, den: int,
                           sign: (string, Message) -> Bytes)

  datatype NodeState = NodeState(
    chain: seq<FinalizedBlock>,
    known: map<string, Block>,
    pool: map<string, seq<Attestation>>,
    byValidator: map<string, set<string>>,
    attestedAt: map<int, string>,
    finalized: set<string>,
    pending: map<int, seq<Block>>,
    conflicts: seq<Conflict>,
    /** Every (height, hash) this node has ever signed an attestation for. */
    signed: set<(int, string)>,
    /** The messages flooded and not yet taken by the bus. */
    outbox: seq<GossipMessage>)

  function InitialNode(): NodeState {
    NodeState([], map[], map[], map[], map[], {}, map[], [], {}, [])
  }

  function HashOf(c: Config, block: Block): string {
    c.cx.blockHash(block.header)
  }

  function OwnAttestation(c: Config, id: string, block: Block): Attestation {
    var h := HashOf(c, block);
    Attestation(h, block.header.height, id, c.suite,
                c.sign(id, AttestMessage(c.suite, block.header.height, h, c.cx.setId(c.set_))))
  }

  function Voters(atts: seq<Attestation>): set<string> {
    set a | a in atts :: a.validator
  }

  function PoolAt(pool: map<string, seq<Attestation>>, hash: string): seq<Attestation> {
    if hash in pool then pool[hash] else []
  }

  function HashesAt(byValidator: map<string, set<string>>, v: string): set<string> {
    if v in byValidator then byValidator[v] else {}
  }

  function PendingAt(pending: map<int, seq<Block>>, height: int): seq<Block> {
    if height in pending then pending[height] else []
  }

  predicate HasHash(c: Config, blocks: seq<Block>, hash: string) {
    exists i :: 0 <= i < |blocks| && HashOf(c, blocks[i]) == hash
  }

  // --- handlers ---

  function TryFinalize(c: Config, s: NodeState, hash: string): (r: NodeState)
    ensures r == s.(chain := r.chain, finalized := r.finalized)
    ensures |r.chain| >= |s.chain|
  {
    if hash in s.finalized || hash !in s.known || s.known[hash].header.height != |s.chain| then s
    else
      var chain := Submitted(c.cx, c.set_, c.suite, c.num, c.den, s.chain, s.known[hash], PoolAt(s.pool, hash));
      if |chain| > |s.chain| then s.(chain := chain, finalized := s.finalized + {hash}) else s
  }

  /** The attestation verifies under a staked key and is for the node's suite. */
  predicate Admissible(c: Config, att: Attestation) {
    && att.suite == c.suite
    && StakeOf(c.set_.validators, att.validator) > 0
    && c.cx.verify(att.suite, att.sig, AttestMessage(att.suite, att.height, att.blockHash, c.cx.setId(c.set_)),
                   att.validator)
  }

  /** An admissible attestation of the live window that is new and within the caps. */
  predicate Poolable(c: Config, s: NodeState, att: Attestation) {
    var hashes := HashesAt(s.byValidator, att.validator);
    && Admissible(c, att)
    && |s.chain| <= att.height <= |s.chain| + MAX_FUTURE_HEIGHTS
    && att.validator !in Voters(PoolAt(s.pool, att.blockHash))
    && (att.blockHash in hashes || |hashes| < MAX_HASHES_PER_VALIDATOR)
    && (att.blockHash in s.pool || |s.pool| < MAX_ATTESTED_HASHES)
  }

  function AddToPool(s: NodeState, att: Attestation): NodeState {
    s.(pool := s.pool[att.blockHash := PoolAt(s.pool, att.blockHash) + [att]],
       byValidator := s.byValidator[att.validator := HashesAt(s.byValidator, att.validator) + {att.blockHash}],
       outbox := s.outbox + [AttMsg(att)])
  }

  function OnAttestation(c: Config, s: NodeState, att: Attestation): (r: NodeState)
    ensures r.pending == s.pending && r.known == s.known && r.signed == s.signed && |r.chain| >= |s.chain|
  {
    if Poolable(c, s, att) then TryFinalize(c, AddToPool(s, att), att.blockHash) else s
  }

  function BufferFuture(c: Config, s: NodeState, block: Block): (r: NodeState)
    ensures r.chain == s.chain
  {
    var height := block.header.height;
    var list := PendingAt(s.pending, height);
    if height > |s.chain| + MAX_FUTURE_HEIGHTS then s
    else if HasHash(c, list, HashOf(c, block)) then s
    else if |list| >= MAX_PENDING_PER_HEIGHT then s
    else s.(pending := s.pending[height := list + [block]], outbox := s.outbox + [BlockMsg(block)])
  }

  /** Attest the block if nothing was attested at its height; note a conflict if something else was. */
  function AttestOnce(c: Config, id: string, s: NodeState, block: Block): (r: NodeState)
    ensures r.pending == s.pending && r.known == s.known && s.signed <= r.signed && |r.chain| >= |s.chain|
  {
    var h, height := HashOf(c, block), block.header.height;
    if height !in s.attestedAt then
      if StakeOf(c.set_.validators, id) > 0 then
        OnAttestation(c, s.(attestedAt := s.attestedAt[height := h], signed := s.signed + {(height, h)}),
                      OwnAttestation(c, id, block))
      else s
    else if s.attestedAt[height] != h && |s.conflicts| < MAX_OBSERVED_CONFLICTS then
      s.(conflicts := s.conflicts + [Conflict(height, s.attestedAt[height], h)])
    else s
  }

  function OnBlock(c: Config, id: string, s: NodeState, block: Block, flood: bool): (r: NodeState)
    ensures block.header.height <= |s.chain| ==> r.pending == s.pending
    ensures s.signed <= r.signed && |r.chain| >= |s.chain|
    ensures Filed(s.pending) ==> Filed(r.pending)
  {
    var h := HashOf(c, block);
    if block.header.height < |s.chain| then s
    else if block.header.height > |s.chain| then BufferFuture(c, s, block)
    else if h in s.known || |s.known| >= MAX_KNOWN_AT_HEIGHT then s
    else
      var stored := s.(known := s.known[h := block], outbox := s.outbox + if flood then [BlockMsg(block)] else []);
      TryFinalize(c, AttestOnce(c, id, stored, block), h)
  }

  // --- draining ---

  function VotersOf(pool: map<string, seq<Attestation>>): set<string> {
    set h, a | h in pool && a in pool[h] :: a.validator
  }

  function HashesOf(pool: map<string, seq<Attestation>>, v: string): set<string> {
    set h | h in pool && v in Voters(pool[h])
  }

  /** The index from validators to the hashes they are pooled for. */
  function IndexOf(pool: map<string, seq<Attestation>>): map<string, set<string>> {
    map v | v in VotersOf(pool) :: HashesOf(pool, v)
  }

  /** The hashes of known blocks below the head. */
  function StaleKnown(known: map<string, Block>, height: nat): set<string> {
    set h | h in known && known[h].header.height < height
  }

  /** The pooled hashes whose first attestation is below the head. */
  function StalePool(pool: map<string, seq<Attestation>>, height: nat): set<string> {
    set h | h in pool && pool[h] != [] && pool[h][0].height < height
  }

  /** The entries at `height` and above. */
  function From<V>(m: map<int, V>, height: nat): map<int, V> {
    map k | k in m && k >= height :: m[k]
  }

  /** Forget everything below the head and rebuild the index. */
  function Prune(s: NodeState): NodeState {
    var height := |s.chain|;
    var pool := s.pool - StaleKnown(s.known, height);
    var pool' := pool - StalePool(pool, height);
    s.(attestedAt := From(s.attestedAt, height),
       known := s.known - StaleKnown(s.known, height),
       pool := pool',
       byValidator := IndexOf(pool'),
       pending := From(s.pending, height))
  }

  function Replay(c: Config, id: string, s: NodeState, blocks: seq<Block>): (r: NodeState)
    requires forall i :: 0 <= i < |blocks| ==> blocks[i].header.height <= |s.chain|
    ensures r.pending == s.pending && s.signed <= r.signed && |r.chain| >= |s.chain|
    decreases |blocks|
  {
    if blocks == [] then s
    else
      var n := |blocks| - 1;
      OnBlock(c, id, Replay(c, id, s, blocks[..n]), blocks[n], false)
  }

  /** Buffered blocks are filed under their own height. */
  ghost predicate Filed(pending: map<int, seq<Block>>) {
    forall k, i :: k in pending && 0 <= i < |pending[k]| ==> pending[k][i].header.height == k
  }

  /** Prune, and replay the blocks that are due at the current height. */
  ghost function Pass(c: Config, id: string, s: NodeState): (r: NodeState)
    requires Filed(s.pending)
    ensures s.signed <= r.signed && |r.chain| >= |s.chain| && Filed(r.pending)
    ensures |r.chain| > |s.chain| ==> |r.pending| < |s.pending|
  {
    var p := Prune(s);
    var height := |p.chain|;
    PruneShrinks(s);
    if height !in p.pending then p
    else
      FewerPending(p.pending, height);
      Replay(c, id, p.(pending := p.pending - {height}), p.pending[height])
  }

  /** Pass after pass, as long as the chain advances. */
  ghost function Drain(c: Config, id: string, s: NodeState): (r: NodeState)
    requires Filed(s.pending)
    ensures s.signed <= r.signed && |r.chain| >= |s.chain|
    decreases |s.pending|
  {
    var r := Pass(c, id, s);
    if |r.chain| == |s.chain| then r else Drain(c, id, r)
  }

  lemma FewerPending(pending: map<int, seq<Block>>, k: int)
    requires k in pending
    ensures |pending - {k}| < |pending|
  {
    assert (pending - {k}).Keys == pending.Keys - {k};
  }

  lemma PruneShrinks(s: NodeState)
    ensures |Prune(s).pending| <= |s.pending|
  {
    SubsetSize(Prune(s).pending.Keys, s.pending.Keys);
  }

  /** One delivered message. */
  ghost function OnMessage(c: Config, id: string, s: NodeState, m: GossipMessage): (r: NodeState)
    requires Filed(s.pending)
    ensures s.signed <= r.signed
  {
    var r := match m case BlockMsg(b) => OnBlock(c, id, s, b, true) case AttMsg(a) => OnAttestation(c, s, a);
    assert Filed(r.pending);
    Drain(c, id, r)
  }

  /** The block that the node with this id would propose on its head. */
  function Proposal(c: Config, id: string, s: NodeState, payloadRoot: string, timestamp: int): Block {
    var header := Header(|s.chain|, HeadHash(s.chain), 0, id, payloadRoot, timestamp, None);
    Block(header, c.sign(id, BlockMessage(c.suite, c.cx.blockHash(header))), c.suite, None, None)
  }

  /** Propose if this node is the canonical leader, and deliver the block to itself. */
  ghost function ProposeIfLeader(c: Config, id: string, s: NodeState, payloadRoot: string,
                                 timestamp: int): (r: NodeState)
    requires Filed(s.pending)
    ensures s.signed <= r.signed
  {
    if Sortition.Leader(c.set_.validators, c.cx.draw(HeadHash(s.chain), 0)) != Some(id) then s
    else Drain(c, id, OnBlock(c, id, s, Proposal(c, id, s, payloadRoot, timestamp), true))
  }
}
