/**
 Whole runs of honest gossip nodes and the bus. The adversary delivers in any order, drops, and injects
 any message it can make: an attestation that verifies under the key of an honest node must have been
 signed by that node. Validators that run no honest node are the adversary's.
 */
module GossipSystem {
  import opened ByteStrings
  import opened Collections
  import opened Stake
  import opened Ledger
  import opened GossipSpec
  import opened GossipInvariants
  import Equivocations
  import Sortition

  datatype System = System(nodes: map<string, NodeState>, net: seq<(string, GossipMessage)>)

  /** `peers` are those that the messages flooded in the step go to, in the order of the queue. */
  datatype Action =
    | Deliver(at: nat, peers: seq<string>)
    | Drop(at: nat)
    | Inject(to: string, message: GossipMessage)
    | Propose(id: string, payloadRoot: string, timestamp: int, peers: seq<string>)

  /** The copies of one message that a broadcast queues. */
  function Copies(peers: seq<string>, m: GossipMessage): seq<(string, GossipMessage)> {
    Mapped(to => (to, m), peers)
  }

  function Broadcast(peers: seq<string>, ms: seq<GossipMessage>): seq<(string, GossipMessage)> {
    if ms == [] then [] else Broadcast(peers, ms[..|ms| - 1]) + Copies(peers, ms[|ms| - 1])
  }

  // --- unforgeability ---

  ghost function Signers(sys: System): map<string, set<(int, string)>> {
    map id | id in sys.nodes :: sys.nodes[id].signed
  }

  /** If `a` verifies under the key of an honest node, that node signed it. */
  ghost predicate Genuine(c: Config, signers: map<string, set<(int, string)>>, a: Attestation) {
    a.validator in signers && Attests(c.cx, c.set_, a, a.height, a.blockHash) ==>
        (a.height, a.blockHash) in signers[a.validator]
  }

  ghost predicate GenuineMessage(c: Config, signers: map<string, set<(int, string)>>, m: GossipMessage) {
    m.AttMsg? ==> Genuine(c, signers, m.att)
  }

  // --- steps and runs ---

  ghost predicate AllFiled(sys: System) {
    forall id :: id in sys.nodes ==> Filed(sys.nodes[id].pending)
  }

  ghost predicate Enabled(c: Config, sys: System, a: Action) {
    match a
    case Deliver(at, _) => at < |sys.net|
    case Drop(at) => at < |sys.net|
    case Inject(_, m) => GenuineMessage(c, Signers(sys), m)
    case Propose(id, _, _, _) => id in sys.nodes
  }

  /** The node's new state, and its flooded messages handed to the bus. */
  ghost function Stepped(sys: System, id: string, r: NodeState, peers: seq<string>,
                         net: seq<(string, GossipMessage)>): System {
    System(sys.nodes[id := r.(outbox := [])], net + Broadcast(peers, r.outbox))
  }

  function Rest(net: seq<(string, GossipMessage)>, at: nat): seq<(string, GossipMessage)>
    requires at < |net|
  {
    net[..at] + net[at + 1..]
  }

  ghost function Delivered(c: Config, sys: System, at: nat, peers: seq<string>): System
    requires AllFiled(sys) && at < |sys.net|
  {
    var (to, m) := sys.net[at];
    if to !in sys.nodes then sys.(net := Rest(sys.net, at))
    else Stepped(sys, to, OnMessage(c, to, sys.nodes[to], m), peers, Rest(sys.net, at))
  }

  ghost function Next(c: Config, sys: System, a: Action): System
    requires AllFiled(sys) && Enabled(c, sys, a)
  {
    match a
    case Deliver(at, peers) => Delivered(c, sys, at, peers)
    case Drop(at) => sys.(net := Rest(sys.net, at))
    case Inject(to, m) => sys.(net := sys.net + [(to, m)])
    case Propose(id, payloadRoot, timestamp, peers) =>
      Stepped(sys, id, ProposeIfLeader(c, id, sys.nodes[id], payloadRoot, timestamp), peers, sys.net)
  }

  ghost function InitialSystem(ids: set<string>): System {
    System(map id | id in ids :: InitialNode(), [])
  }

  /** The run takes the action number `t` as a step of the system. */
  ghost predicate StepAt(c: Config, run: seq<System>, actions: seq<Action>, t: nat)
    requires t < |actions| < |run|
  {
    AllFiled(run[t]) && Enabled(c, run[t], actions[t]) && run[t + 1] == Next(c, run[t], actions[t])
  }

  ghost predicate IsRun(c: Config, ids: set<string>, run: seq<System>, actions: seq<Action>) {
    && |run| == |actions| + 1 && run[0] == InitialSystem(ids)
    && forall t :: 0 <= t < |actions| ==> StepAt(c, run, actions, t)
  }

  lemma InitialRun(c: Config, ids: set<string>)
    ensures IsRun(c, ids, [InitialSystem(ids)], [])
  {
  }

  /** A run goes on with any enabled step. */
  lemma RunExtends(c: Config, ids: set<string>, run: seq<System>, actions: seq<Action>, a: Action)
    requires IsRun(c, ids, run, actions) && AllFiled(run[|actions|]) && Enabled(c, run[|actions|], a)
    ensures IsRun(c, ids, run + [Next(c, run[|actions|], a)], actions + [a])
  {
    hide Next, Enabled, AllFiled;
    var run', actions' := run + [Next(c, run[|actions|], a)], actions + [a];
    forall t | 0 <= t < |actions'|
      ensures StepAt(c, run', actions', t)
    {
      if t < |actions| { assert StepAt(c, run, actions, t); }
    }
  }

  // --- what a node holds stays genuine ---

  ghost predicate GenuineList(c: Config, signers: map<string, set<(int, string)>>, atts: seq<Attestation>) {
    forall i :: 0 <= i < |atts| ==> Genuine(c, signers, atts[i])
  }

  ghost predicate GenuineMessages(c: Config, signers: map<string, set<(int, string)>>, ms: seq<GossipMessage>) {
    forall i :: 0 <= i < |ms| ==> GenuineMessage(c, signers, ms[i])
  }

  ghost predicate GenuinePool(c: Config, signers: map<string, set<(int, string)>>,
                              pool: map<string, seq<Attestation>>) {
    forall h :: h in pool ==> GenuineList(c, signers, pool[h])
  }

  ghost predicate GenuineChain(c: Config, signers: map<string, set<(int, string)>>, chain: seq<FinalizedBlock>) {
    forall i :: 0 <= i < |chain| ==> GenuineList(c, signers, chain[i].attestations)
  }

  ghost predicate GenuineNode(c: Config, signers: map<string, set<(int, string)>>, s: NodeState) {
    && GenuinePool(c, signers, s.pool)
    && GenuineChain(c, signers, s.chain)
    && GenuineMessages(c, signers, s.outbox)
  }

  /** The node's own signatures are on record. */
  ghost predicate Recorded(signers: map<string, set<(int, string)>>, id: string, s: NodeState) {
    id in signers ==> s.signed <= signers[id]
  }

  lemma TryFinalizeGenuine(c: Config, signers: map<string, set<(int, string)>>, s: NodeState, hash: string)
    requires GenuineNode(c, signers, s)
    ensures GenuineNode(c, signers, TryFinalize(c, s, hash))
  {
    hide Submitted, Genuine, GenuineMessage;
  }

  lemma OnAttestationGenuine(c: Config, signers: map<string, set<(int, string)>>, s: NodeState, att: Attestation)
    requires GenuineNode(c, signers, s) && Genuine(c, signers, att)
    ensures GenuineNode(c, signers, OnAttestation(c, s, att))
  {
    hide Poolable, TryFinalize, AddToPool, Genuine, GenuineNode;
    if Poolable(c, s, att) {
      AddToPoolGenuine(c, signers, s, att);
      TryFinalizeGenuine(c, signers, AddToPool(s, att), att.blockHash);
    }
  }

  lemma AddToPoolGenuine(c: Config, signers: map<string, set<(int, string)>>, s: NodeState, att: Attestation)
    requires GenuineNode(c, signers, s) && Genuine(c, signers, att)
    ensures GenuineNode(c, signers, AddToPool(s, att))
  {
    hide Genuine;
    assert GenuineMessage(c, signers, AttMsg(att));
  }

  lemma AttestOnceGenuine(c: Config, signers: map<string, set<(int, string)>>, id: string, s: NodeState, block: Block)
    requires GenuineNode(c, signers, s) && Recorded(signers, id, AttestOnce(c, id, s, block))
    ensures GenuineNode(c, signers, AttestOnce(c, id, s, block))
  {
    var h, height := HashOf(c, block), block.header.height;
    if height !in s.attestedAt && StakeOf(c.set_.validators, id) > 0 {
      var t := s.(attestedAt := s.attestedAt[height := h], signed := s.signed + {(height, h)});
      assert (height, h) in t.signed;
      OnAttestationGenuine(c, signers, t, OwnAttestation(c, id, block));
    }
  }

  lemma OnBlockGenuine(c: Config, signers: map<string, set<(int, string)>>, id: string, s: NodeState, block: Block,
                       flood: bool)
    requires GenuineNode(c, signers, s) && Recorded(signers, id, OnBlock(c, id, s, block, flood))
    ensures GenuineNode(c, signers, OnBlock(c, id, s, block, flood))
  {
    hide TryFinalize, AttestOnce, Genuine;
    var h := HashOf(c, block);
    if block.header.height == |s.chain| && h !in s.known && |s.known| < MAX_KNOWN_AT_HEIGHT {
      var stored := s.(known := s.known[h := block], outbox := s.outbox + if flood then [BlockMsg(block)] else []);
      AttestOnceGenuine(c, signers, id, stored, block);
      TryFinalizeGenuine(c, signers, AttestOnce(c, id, stored, block), h);
    }
  }

  lemma {:induction false} ReplayGenuine(c: Config, signers: map<string, set<(int, string)>>, id: string, s: NodeState,
                                         blocks: seq<Block>)
    requires forall i :: 0 <= i < |blocks| ==> blocks[i].header.height <= |s.chain|
    requires GenuineNode(c, signers, s) && Recorded(signers, id, Replay(c, id, s, blocks))
    ensures GenuineNode(c, signers, Replay(c, id, s, blocks))
    decreases |blocks|
  {
    if blocks == [] {
    } else {
      var n := |blocks| - 1;
      ReplayGenuine(c, signers, id, s, blocks[..n]);
      OnBlockGenuine(c, signers, id, Replay(c, id, s, blocks[..n]), blocks[n], false);
    }
  }

  lemma PassGenuine(c: Config, signers: map<string, set<(int, string)>>, id: string, s: NodeState)
    requires Filed(s.pending)
    requires GenuineNode(c, signers, s) && Recorded(signers, id, Pass(c, id, s))
    ensures GenuineNode(c, signers, Pass(c, id, s))
  {
    hide Replay, GenuineList;
    var p := Prune(s);
    var height := |p.chain|;
    if height in p.pending {
      ReplayGenuine(c, signers, id, p.(pending := p.pending - {height}), p.pending[height]);
    }
  }

  lemma {:induction false} DrainGenuine(c: Config, signers: map<string, set<(int, string)>>, id: string, s: NodeState)
    requires Filed(s.pending)
    requires GenuineNode(c, signers, s) && Recorded(signers, id, Drain(c, id, s))
    ensures GenuineNode(c, signers, Drain(c, id, s))
    decreases |s.pending|
  {
    hide Pass, GenuineNode, Filed;
    PassGenuine(c, signers, id, s);
    var r := Pass(c, id, s);
    if |r.chain| == |s.chain| {
    } else {
      DrainGenuine(c, signers, id, r);
    }
  }

  lemma OnMessageGenuine(c: Config, signers: map<string, set<(int, string)>>, id: string, s: NodeState,
                         m: GossipMessage)
    requires Filed(s.pending) && GenuineMessage(c, signers, m)
    requires GenuineNode(c, signers, s) && Recorded(signers, id, OnMessage(c, id, s, m))
    ensures GenuineNode(c, signers, OnMessage(c, id, s, m))
  {
    hide OnBlock, OnAttestation, Drain, GenuineNode, Filed;
    match m
    case BlockMsg(b) =>
      OnBlockGenuine(c, signers, id, s, b, true);
      DrainGenuine(c, signers, id, OnBlock(c, id, s, b, true));
    case AttMsg(a) =>
      OnAttestationGenuine(c, signers, s, a);
      DrainGenuine(c, signers, id, OnAttestation(c, s, a));
  }

  lemma ProposeGenuine(c: Config, signers: map<string, set<(int, string)>>, id: string, s: NodeState,
                       payloadRoot: string, timestamp: int)
    requires Filed(s.pending)
    requires GenuineNode(c, signers, s) && Recorded(signers, id, ProposeIfLeader(c, id, s, payloadRoot, timestamp))
    ensures GenuineNode(c, signers, ProposeIfLeader(c, id, s, payloadRoot, timestamp))
  {
    hide OnBlock, Drain, GenuineNode, Filed;
    if ProposeIfLeader(c, id, s, payloadRoot, timestamp) != s {
      var block := Proposal(c, id, s, payloadRoot, timestamp);
      OnBlockGenuine(c, signers, id, s, block, true);
      DrainGenuine(c, signers, id, OnBlock(c, id, s, block, true));
    }
  }

  // --- the invariant of the system ---

  ghost predicate GenuineNet(c: Config, signers: map<string, set<(int, string)>>, net: seq<(string, GossipMessage)>) {
    forall i :: 0 <= i < |net| ==> GenuineMessage(c, signers, net[i].1)
  }

  ghost predicate SystemInv(c: Config, sys: System) {
    && GenuineNet(c, Signers(sys), sys.net)
    && forall id :: id in sys.nodes ==> NodeKept(c, Signers(sys), sys.nodes[id])
  }

  /** Records only grow. */
  ghost predicate Extends(signers: map<string, set<(int, string)>>, signers': map<string, set<(int, string)>>) {
    signers.Keys == signers'.Keys && forall id :: id in signers ==> signers[id] <= signers'[id]
  }

  lemma GenuineExtends(c: Config, signers: map<string, set<(int, string)>>, signers': map<string, set<(int, string)>>,
                       s: NodeState)
    requires Extends(signers, signers') && GenuineNode(c, signers, s)
    ensures GenuineNode(c, signers', s)
  {
  }

  lemma {:induction false} BroadcastGenuine(c: Config, signers: map<string, set<(int, string)>>, peers: seq<string>,
                                            ms: seq<GossipMessage>)
    requires GenuineMessages(c, signers, ms)
    ensures GenuineNet(c, signers, Broadcast(peers, ms))
    decreases |ms|
  {
    if ms == [] {
    } else {
      BroadcastGenuine(c, signers, peers, ms[..|ms| - 1]);
    }
  }

  /** The invariant of one node in a system with these records. */
  ghost predicate NodeKept(c: Config, signers: map<string, set<(int, string)>>, s: NodeState) {
    Quiet(c, s) && GenuineNode(c, signers, s)
  }

  /** The invariant holds after a step and no record was lost. */
  ghost predicate Kept(c: Config, signers: map<string, set<(int, string)>>, sys: System) {
    SystemInv(c, sys) && Extends(signers, Signers(sys))
  }

  lemma EmptiedKept(c: Config, signers: map<string, set<(int, string)>>, r: NodeState)
    requires NodeKept(c, signers, r)
    ensures NodeKept(c, signers, r.(outbox := []))
  {
  }

  lemma NetExtends(c: Config, signers: map<string, set<(int, string)>>, signers': map<string, set<(int, string)>>,
                   a: seq<(string, GossipMessage)>, b: seq<(string, GossipMessage)>)
    requires Extends(signers, signers') && GenuineNet(c, signers, a) && GenuineNet(c, signers', b)
    ensures GenuineNet(c, signers', a + b)
  {
  }

  lemma SignersAfter(nodes: map<string, NodeState>, net: seq<(string, GossipMessage)>,
                     net': seq<(string, GossipMessage)>, id: string, r: NodeState)
    requires id in nodes && nodes[id].signed <= r.signed
    ensures Signers(System(nodes[id := r.(outbox := [])], net')) == Signers(System(nodes, net))[id := r.signed]
    ensures Extends(Signers(System(nodes, net)), Signers(System(nodes, net))[id := r.signed])
  {
  }

  /** A step of one node to a quiet state that holds only genuine attestations keeps the invariant. */
  lemma SteppedKept(c: Config, sys: System, id: string, r: NodeState, peers: seq<string>,
                    net: seq<(string, GossipMessage)>)
    requires SystemInv(c, sys) && id in sys.nodes && GenuineNet(c, Signers(sys), net)
    requires sys.nodes[id].signed <= r.signed && NodeKept(c, Signers(sys)[id := r.signed], r)
    ensures Kept(c, Signers(sys), Stepped(sys, id, r, peers, net))
  {
    var sent := Broadcast(peers, r.outbox);
    var signers, signers' := Signers(sys), Signers(sys)[id := r.signed];
    SignersAfter(sys.nodes, sys.net, net + sent, id, r);
    BroadcastGenuine(c, signers', peers, r.outbox);
    NetExtends(c, signers, signers', net, sent);
    OthersKept(c, sys, id, signers');
    EmptiedKept(c, signers', r);
  }

  lemma OthersKept(c: Config, sys: System, id: string, signers': map<string, set<(int, string)>>)
    requires SystemInv(c, sys) && Extends(Signers(sys), signers')
    ensures forall other :: other in sys.nodes ==> NodeKept(c, signers', sys.nodes[other])
  {
    forall other | other in sys.nodes
      ensures NodeKept(c, signers', sys.nodes[other])
    {
      GenuineExtends(c, Signers(sys), signers', sys.nodes[other]);
    }
  }

  /** Taking a message from the network or adding a genuine one keeps the invariant. */
  lemma NetKept(c: Config, sys: System, net: seq<(string, GossipMessage)>)
    requires SystemInv(c, sys) && GenuineNet(c, Signers(sys), net)
    ensures Kept(c, Signers(sys), sys.(net := net))
  {
    assert Signers(sys.(net := net)) == Signers(sys);
  }

  lemma DropKept(c: Config, sys: System, at: nat)
    requires SystemInv(c, sys) && at < |sys.net|
    ensures Kept(c, Signers(sys), sys.(net := Rest(sys.net, at)))
  {
    NetKept(c, sys, Rest(sys.net, at));
  }

  lemma InjectKept(c: Config, sys: System, to: string, m: GossipMessage)
    requires SystemInv(c, sys) && GenuineMessage(c, Signers(sys), m)
    ensures Kept(c, Signers(sys), sys.(net := sys.net + [(to, m)]))
  {
    NetKept(c, sys, sys.net + [(to, m)]);
  }

  /** Every step keeps the invariant, and no record is lost. */
  lemma NextKept(c: Config, sys: System, a: Action)
    requires SystemInv(c, sys) && AllFiled(sys) && Enabled(c, sys, a)
    ensures Kept(c, Signers(sys), Next(c, sys, a))
  {
    match a
    case Deliver(at, peers) => DeliverKept(c, sys, at, peers);
    case Drop(at) => DropKept(c, sys, at);
    case Inject(to, m) => InjectKept(c, sys, to, m);
    case Propose(id, payloadRoot, timestamp, peers) => ProposeKept(c, sys, id, payloadRoot, timestamp, peers);
  }

  lemma DeliverKept(c: Config, sys: System, at: nat, peers: seq<string>)
    requires SystemInv(c, sys) && AllFiled(sys) && at < |sys.net|
    ensures Kept(c, Signers(sys), Delivered(c, sys, at, peers))
  {
    hide OnMessage, Broadcast, Quiet, GenuineNode, Filed;
    var (to, m) := sys.net[at];
    if to !in sys.nodes {
      NetKept(c, sys, Rest(sys.net, at));
    } else {
      assert GenuineMessage(c, Signers(sys), sys.net[at].1);
      HandlerKept(c, Signers(sys), to, sys.nodes[to], m);
      SteppedKept(c, sys, to, OnMessage(c, to, sys.nodes[to], m), peers, Rest(sys.net, at));
    }
  }

  lemma HandlerKept(c: Config, signers: map<string, set<(int, string)>>, to: string, s: NodeState, m: GossipMessage)
    requires to in signers && signers[to] == s.signed && NodeKept(c, signers, s) && GenuineMessage(c, signers, m)
    ensures Filed(s.pending) && NodeKept(c, signers[to := OnMessage(c, to, s, m).signed], OnMessage(c, to, s, m))
  {
    hide OnMessage, Quiet, Filed, GenuinePool, GenuineChain, GenuineMessages;
    OnMessageInv(c, to, s, m);
    var signers' := signers[to := OnMessage(c, to, s, m).signed];
    GenuineExtends(c, signers, signers', s);
    OnMessageGenuine(c, signers', to, s, m);
  }

  lemma ProposeKept(c: Config, sys: System, id: string, payloadRoot: string, timestamp: int,
                    peers: seq<string>)
    requires SystemInv(c, sys) && AllFiled(sys) && id in sys.nodes
    ensures Kept(c, Signers(sys), Stepped(sys, id, ProposeIfLeader(c, id, sys.nodes[id], payloadRoot, timestamp),
                                          peers, sys.net))
  {
    var r := ProposeIfLeader(c, id, sys.nodes[id], payloadRoot, timestamp);
    var signers := Signers(sys)[id := r.signed];
    ProposeInv(c, id, sys.nodes[id], payloadRoot, timestamp);
    GenuineExtends(c, Signers(sys), signers, sys.nodes[id]);
    ProposeGenuine(c, signers, id, sys.nodes[id], payloadRoot, timestamp);
    SteppedKept(c, sys, id, r, peers, sys.net);
  }

  // --- runs ---

  lemma InitialKept(c: Config, ids: set<string>)
    ensures SystemInv(c, InitialSystem(ids))
  {
    InitialQuiet(c);
  }

  lemma InvFiled(c: Config, sys: System)
    requires SystemInv(c, sys)
    ensures AllFiled(sys)
  {
    hide Quiet, Filed, GenuineNode;
    forall id | id in sys.nodes
      ensures Filed(sys.nodes[id].pending)
    {
      assert NodeKept(c, Signers(sys), sys.nodes[id]);
      var s := sys.nodes[id];
      StateFiled(c, s);
    }
  }

  lemma StateFiled(c: Config, s: NodeState)
    requires Quiet(c, s)
    ensures Filed(s.pending)
  {
    hide NodeInv, Filed;
    QuietFiled(c, s, |s.chain|, |s.chain| + 1);
  }

  /** Every state of every run satisfies the invariant and can take any enabled action. */
  lemma {:induction false} RunInv(c: Config, ids: set<string>, run: seq<System>,
                                  actions: seq<Action>, t: nat)
    requires IsRun(c, ids, run, actions) && t < |run|
    ensures SystemInv(c, run[t]) && AllFiled(run[t]) && run[t].nodes.Keys == ids
  {
    hide SystemInv, AllFiled, Next, Enabled;
    if t == 0 {
      InitialKept(c, ids);
      assert run[0].nodes.Keys == ids;
    } else {
      RunInv(c, ids, run, actions, t - 1);
      assert StepAt(c, run, actions, t - 1);
      NextKept(c, run[t - 1], actions[t - 1]);
      assert run[t].nodes.Keys == Signers(run[t]).Keys == Signers(run[t - 1]).Keys == run[t - 1].nodes.Keys;
    }
    InvFiled(c, run[t]);
  }

  lemma ExtendsFurther(a: map<string, set<(int, string)>>, b: map<string, set<(int, string)>>,
                       c: map<string, set<(int, string)>>)
    requires Extends(a, b) && Extends(b, c)
    ensures Extends(a, c)
  {
  }

  lemma StepExtends(c: Config, ids: set<string>, run: seq<System>, actions: seq<Action>, t: nat)
    requires IsRun(c, ids, run, actions) && t < |actions|
    ensures Extends(Signers(run[t]), Signers(run[t + 1]))
  {
    RunInv(c, ids, run, actions, t);
    assert StepAt(c, run, actions, t);
    NextKept(c, run[t], actions[t]);
  }

  lemma {:induction false} RecordsGrow(c: Config, ids: set<string>, run: seq<System>,
                                       actions: seq<Action>, t: nat, t': nat)
    requires IsRun(c, ids, run, actions) && t <= t' < |run|
    ensures Extends(Signers(run[t]), Signers(run[t']))
    decreases t'
  {
    if t >= t' {
    } else {
      RecordsGrow(c, ids, run, actions, t, t' - 1);
      StepExtends(c, ids, run, actions, t' - 1);
      ExtendsFurther(Signers(run[t]), Signers(run[t' - 1]), Signers(run[t']));
    }
  }

  // --- agreement ---

  ghost function Keys(vs: seq<Validator>): set<string> {
    set v | v in vs :: v.pubkey
  }

  /** The keys with an entry in the set that run no honest node. */
  ghost function Faulty(vs: seq<Validator>, ids: set<string>): set<string> {
    Keys(vs) - ids
  }

  /** The faulty validators hold less than `(2 num - den) / den` of all stake: less than a third for two thirds. */
  ghost predicate FewFaulty(c: Config, ids: set<string>) {
    Weight(c.set_.validators, Faulty(c.set_.validators, ids)) * c.den
        < (2 * c.num - c.den) * TotalStake(c.set_.validators)
  }

  /** Two quorums share an honest node. */
  lemma HonestInBoth(c: Config, ids: set<string>, a: seq<Attestation>, hA: string, votersA: set<string>,
                     b: seq<Attestation>, hB: string, votersB: set<string>, height: int) returns (v: string)
    requires FewFaulty(c, ids)
    requires Quorum(c.cx, c.set_, c.num, c.den, a, height, hA, votersA)
             && Quorum(c.cx, c.set_, c.num, c.den, b, height, hB, votersB)
    ensures v in ids && v in votersA && v in votersB
  {
    var vs := c.set_.validators;
    if forall v :: v in votersA * votersB ==> v !in ids {
      forall v | v in votersA * votersB
        ensures v in Faulty(vs, ids)
      {
        var i := StakedIsMember(vs, v);
      }
      WeightIntersection(vs, votersA, votersB);
      WeightMonotone(vs, votersA * votersB, Faulty(vs, ids));
      Equivocations.QuorumsOverlap(Weight(vs, votersA), Weight(vs, votersB), Weight(vs, Faulty(vs, ids)),
                                   TotalStake(vs), c.num, c.den);
      assert false;
    }
    v :| v in votersA * votersB && v in ids;
  }

  /** What an honest node signed for a chain it or another node built is on record. */
  lemma VoterSigned(c: Config, signers: map<string, set<(int, string)>>, atts: seq<Attestation>, height: int,
                    hash: string, v: string)
    requires GenuineList(c, signers, atts) && v in signers && AttestedBy(c.cx, c.set_, atts, height, hash, v)
    ensures (height, hash) in signers[v]
  {
  }

  /**
   Agreement: in every run, whatever is delivered, dropped or injected, two honest nodes never finalize
   different hashes at one height, not even at different times.
   */
  lemma Agreement(c: Config, ids: set<string>, run: seq<System>, actions: seq<Action>,
                  t: nat, p: string, t': nat, q: string, height: nat)
    requires IsRun(c, ids, run, actions) && t <= t' < |run| && p in ids && q in ids
    requires FewFaulty(c, ids)
    requires p in run[t].nodes && height < |run[t].nodes[p].chain|
    requires q in run[t'].nodes && height < |run[t'].nodes[q].chain|
    ensures run[t].nodes[p].chain[height].hash == run[t'].nodes[q].chain[height].hash
  {
    RunInv(c, ids, run, actions, t);
    RunInv(c, ids, run, actions, t');
    RecordsGrow(c, ids, run, actions, t, t');
    var signers := Signers(run[t']);
    GenuineExtends(c, Signers(run[t]), signers, run[t].nodes[p]);
    var a, b := run[t].nodes[p].chain[height], run[t'].nodes[q].chain[height];
    assert HasQuorum(c.cx, c.set_, c.num, c.den, a) && HasQuorum(c.cx, c.set_, c.num, c.den, b);
    var votersA :| Quorum(c.cx, c.set_, c.num, c.den, a.attestations, a.block.header.height, a.hash, votersA);
    var votersB :| Quorum(c.cx, c.set_, c.num, c.den, b.attestations, b.block.header.height, b.hash, votersB);
    var v := HonestInBoth(c, ids, a.attestations, a.hash, votersA, b.attestations, b.hash, votersB, height);
    VoterSigned(c, signers, a.attestations, height, a.hash, v);
    VoterSigned(c, signers, b.attestations, height, b.hash, v);
    SignedOnce(c, run[t'].nodes[v], height, a.hash, b.hash);
  }

  lemma SignedOnce(c: Config, s: NodeState, height: int, a: string, b: string)
    requires Quiet(c, s) && (height, a) in s.signed && (height, b) in s.signed
    ensures a == b
  {
  }

  /** The hashes of a chain. */
  ghost function Hashes(chain: seq<FinalizedBlock>): seq<string> {
    seq(|chain|, i requires 0 <= i < |chain| => chain[i].hash)
  }

  /** At any moment of any run, of two honest chains one extends the other. */
  lemma PrefixComparable(c: Config, ids: set<string>, run: seq<System>, actions: seq<Action>,
                         t: nat, p: string, q: string)
    requires IsRun(c, ids, run, actions) && t < |run| && p in ids && q in ids && FewFaulty(c, ids)
    requires p in run[t].nodes && q in run[t].nodes
    ensures var a, b := Hashes(run[t].nodes[p].chain), Hashes(run[t].nodes[q].chain); a <= b || b <= a
  {
    var a, b := Hashes(run[t].nodes[p].chain), Hashes(run[t].nodes[q].chain);
    forall k: nat | k < |a| && k < |b|
      ensures a[k] == b[k]
    {
      Agreement(c, ids, run, actions, t, p, t, q, k);
    }
  }

  /** In every run an honest node stays safe from slashing: no list of proofs made of genuine attestations names it. */
  lemma HonestNodeKept(c: Config, ids: set<string>, run: seq<System>, actions: seq<Action>, t: nat,
                       id: string, decodable: string -> bool, proofs: seq<Equivocations.Proof>)
    requires IsRun(c, ids, run, actions) && t < |run| && id in ids
    requires forall k :: 0 <= k < |proofs| ==>
             Genuine(c, Signers(run[t]), proofs[k].attA) && Genuine(c, Signers(run[t]), proofs[k].attB)
    ensures !Equivocations.Proven(c.cx, decodable, c.set_, proofs, id)
  {
    RunInv(c, ids, run, actions, t);
    if Equivocations.Proven(c.cx, decodable, c.set_, proofs, id) {
      var k :| 0 <= k < |proofs| && proofs[k].validator == id
          && Equivocations.VerifyProof(c.cx, decodable, proofs[k], c.set_);
      var a, b := proofs[k].attA, proofs[k].attB;
      assert Genuine(c, Signers(run[t]), a) && Genuine(c, Signers(run[t]), b);
      SignedOnce(c, run[t].nodes[id], a.height, a.blockHash, b.blockHash);
      assert false;
    }
  }

  // --- accountability ---

  /** The voters of a list of attestations by different staked validators are no more than the validators. */
  lemma EvidenceSize(c: Config, atts: seq<Attestation>)
    requires Evidence(c, atts)
    ensures |atts| <= |c.set_.validators|
  {
    var vs := c.set_.validators;
    DistinctSize(atts);
    forall v | v in Voters(atts)
      ensures v in Keys(vs)
    {
      var i :| 0 <= i < |atts| && atts[i].validator == v;
      var j := StakedIsMember(vs, v);
    }
    SubsetSize(Voters(atts), Keys(vs));
    KeysSize(vs);
  }

  lemma {:induction false} DistinctSize(atts: seq<Attestation>)
    requires DistinctVoters(atts)
    ensures |Voters(atts)| == |atts|
    decreases |atts|
  {
    if atts == [] {
      assert Voters(atts) == {};
    } else {
      var n := |atts| - 1;
      DistinctSize(atts[..n]);
      assert atts == atts[..n] + [atts[n]];
      VotersAppend(atts[..n], atts[n]);
    }
  }

  lemma {:induction false} KeysSize(vs: seq<Validator>)
    ensures |Keys(vs)| <= |vs|
  {
    if vs == [] {
      assert Keys(vs) == {};
    } else {
      KeysSize(vs[1..]);
      assert vs == [vs[0]] + vs[1..];
      assert Keys(vs) == Keys(vs[1..]) + {vs[0].pubkey};
    }
  }

  /** What detection pairs up from genuine attestations is genuine. */
  lemma DetectedGenuine(c: Config, signers: map<string, set<(int, string)>>, a: FinalizedBlock, b: FinalizedBlock,
                        out: seq<Equivocations.Proof>)
    requires GenuineList(c, signers, a.attestations) && GenuineList(c, signers, b.attestations)
    requires Equivocations.Detected(c.cx, a.block, a.attestations, b.block, b.attestations, out)
    ensures forall k :: 0 <= k < |out| ==> Genuine(c, signers, out[k].attA) && Genuine(c, signers, out[k].attB)
  {
    forall k | 0 <= k < |out|
      ensures Genuine(c, signers, out[k].attA) && Genuine(c, signers, out[k].attB)
    {
      Equivocations.LastForIs(a.attestations, c.cx.blockHash(a.block.header), out[k].validator);
      Equivocations.FirstForIs(b.attestations, c.cx.blockHash(b.block.header), out[k].validator);
    }
  }

  /** What a run says about a block that a node finalized by some later moment. */
  lemma Finalized(c: Config, ids: set<string>, run: seq<System>, actions: seq<Action>,
                  t: nat, p: string, height: nat, later: nat) returns (voters: set<string>)
    requires IsRun(c, ids, run, actions) && t <= later < |run|
    requires p in run[t].nodes && height < |run[t].nodes[p].chain|
    ensures var fb := run[t].nodes[p].chain[height];
            && Quorum(c.cx, c.set_, c.num, c.den, fb.attestations, height, fb.hash, voters)
            && fb.block.header.height == height && fb.hash == c.cx.blockHash(fb.block.header)
            && Evidence(c, fb.attestations) && |fb.attestations| <= |c.set_.validators|
            && GenuineList(c, Signers(run[later]), fb.attestations)
  {
    RunInv(c, ids, run, actions, t);
    RecordsGrow(c, ids, run, actions, t, later);
    var s := run[t].nodes[p];
    GenuineExtends(c, Signers(run[t]), Signers(run[later]), s);
    var fb := s.chain[height];
    assert LinkedAt(c.cx, c.set_, c.num, c.den, s.chain[..height], fb);
    EvidenceSize(c, fb.attestations);
    voters :| Quorum(c.cx, c.set_, c.num, c.den, fb.attestations, fb.block.header.height, fb.hash, voters);
  }

  /**
   Accountability: if two honest nodes ever finalize different hashes at one height, the attestations that they
   stored convict validators with at least `(2 num - den) / den` of all stake, unless a list is beyond the cap of
   the detection, and never an honest node. However many validators are faulty.
   */
  lemma Accountability(c: Config, ids: set<string>, run: seq<System>, actions: seq<Action>,
                       t: nat, p: string, t': nat, q: string, height: nat,
                       decodable: string -> bool, out: seq<Equivocations.Proof>, accepted: set<string>)
    requires IsRun(c, ids, run, actions) && t < |run| && t' < |run|
    requires p in run[t].nodes && height < |run[t].nodes[p].chain|
    requires q in run[t'].nodes && height < |run[t'].nodes[q].chain|
    requires run[t].nodes[p].chain[height].hash != run[t'].nodes[q].chain[height].hash
    requires Equivocations.AllDecodable(decodable, c.set_.validators)
    requires var a, b := run[t].nodes[p].chain[height], run[t'].nodes[q].chain[height];
             Equivocations.Detected(c.cx, a.block, a.attestations, b.block, b.attestations, out)
    requires forall v :: v in accepted <==> Equivocations.Proven(c.cx, decodable, c.set_, out, v)
    ensures accepted !! ids
    ensures var a, b, cap := run[t].nodes[p].chain[height], run[t'].nodes[q].chain[height],
            Equivocations.MAX_ATTESTATIONS_PER_SIDE;
            && |a.attestations| <= |c.set_.validators| && |b.attestations| <= |c.set_.validators|
            && (|a.attestations| <= cap && |b.attestations| <= cap ==>
                  Weight(c.set_.validators, accepted) * c.den >= (2 * c.num - c.den) * TotalStake(c.set_.validators))
  {
    hide IsRun, Quorum, Equivocations.Detected, Equivocations.Proven, Evidence, GenuineList;
    var later := if t <= t' then t' else t;
    var a, b := run[t].nodes[p].chain[height], run[t'].nodes[q].chain[height];
    var votersA := Finalized(c, ids, run, actions, t, p, height, later);
    var votersB := Finalized(c, ids, run, actions, t', q, height, later);
    DetectedGenuine(c, Signers(run[later]), a, b, out);
    forall id | id in ids
      ensures id !in accepted
    {
      HonestNodeKept(c, ids, run, actions, later, id, decodable, out);
    }
    if |a.attestations| <= Equivocations.MAX_ATTESTATIONS_PER_SIDE
        && |b.attestations| <= Equivocations.MAX_ATTESTATIONS_PER_SIDE {
      EvidenceDistinct(c, a.attestations);
      EvidenceDistinct(c, b.attestations);
      Equivocations.QuorumsExposed(c.cx, decodable, c.set_, c.num, c.den, a.block, a.attestations, votersA,
                                   b.block, b.attestations, votersB, out, accepted);
    }
  }

  lemma EvidenceDistinct(c: Config, atts: seq<Attestation>)
    requires Evidence(c, atts)
    ensures DistinctVoters(atts)
  {
  }

  // --- such a run exists ---

  /** The sole validator, with signatures that always verify. */
  function SoleConfig(num: int, den: int): Config {
    Config(Equivocations.LAX, Equivocations.SOLE, "s", num, den, (id, m) => [])
  }

  /** The node after it has stored and attested its own first block. */
  function SoleAttested(root: string): NodeState {
    var block, att := Equivocations.SoleBlock(root), Equivocations.SoleAttestation(root);
    NodeState([], map[root := block], map[root := [att]], map["v" := {root}], map[0 := root], {}, map[], [],
              {(0, root)}, [BlockMsg(block), AttMsg(att)])
  }

  /** The sole validator finalizes its own block as soon as it has attested it. */
  lemma SoleFinalizes(num: int, den: int, s: NodeState, root: string)
    requires ValidThreshold(num, den) && s == SoleAttested(root)
    ensures |TryFinalize(SoleConfig(num, den), s, root).chain| == 1
  {
    hide Appraise;
    Equivocations.SoleFinal(root, num, den, Options(Some(0), Some("s")));
  }

  lemma SolePools(num: int, den: int, root: string)
    ensures var c, block, att := SoleConfig(num, den), Equivocations.SoleBlock(root),
            Equivocations.SoleAttestation(root);
            var t := InitialNode().(known := map[root := block], outbox := [BlockMsg(block)],
                                    attestedAt := map[0 := root], signed := {(0, root)});
            OwnAttestation(c, "v", block) == att && Poolable(c, t, att) && AddToPool(t, att) == SoleAttested(root)
  {
    assert StakeOf(Equivocations.SOLE.validators, "v") == 1;
    assert Voters([]) == {};
    assert [] + [Equivocations.SoleAttestation(root)] == [Equivocations.SoleAttestation(root)];
  }

  lemma SoleAttests(num: int, den: int, root: string)
    ensures var block := Equivocations.SoleBlock(root);
            AttestOnce(SoleConfig(num, den), "v",
                       InitialNode().(known := map[root := block], outbox := [BlockMsg(block)]), block)
            == TryFinalize(SoleConfig(num, den), SoleAttested(root), root)
  {
    hide TryFinalize, Poolable, AddToPool;
    assert StakeOf(Equivocations.SOLE.validators, "v") == 1;
    assert map[][0 := root] == map[0 := root] && {} + {(0, root)} == {(0, root)};
    SolePools(num, den, root);
  }

  lemma SoleStores(num: int, den: int, root: string)
    requires ValidThreshold(num, den)
    ensures |OnBlock(SoleConfig(num, den), "v", InitialNode(), Equivocations.SoleBlock(root), true).chain| >= 1
  {
    hide TryFinalize, AttestOnce;
    var c, block := SoleConfig(num, den), Equivocations.SoleBlock(root);
    assert map[][root := block] == map[root := block] && [] + [BlockMsg(block)] == [BlockMsg(block)];
    SoleAttests(num, den, root);
    SoleFinalizes(num, den, SoleAttested(root), root);
    FinalizeGrows(c, TryFinalize(c, SoleAttested(root), root), root);
  }

  lemma SoleProposes(num: int, den: int, root: string)
    requires ValidThreshold(num, den)
    ensures |ProposeIfLeader(SoleConfig(num, den), "v", InitialNode(), root, 0).chain| >= 1
  {
    hide OnBlock, Drain, Sortition.Leader;
    Equivocations.SoleLeads();
    SoleStores(num, den, root);
  }

  lemma FinalizeGrows(c: Config, s: NodeState, hash: string)
    ensures |TryFinalize(c, s, hash).chain| >= |s.chain|
  {
  }

  /** The run in which the sole validator proposes once; it has a final block, and no validator is faulty. */
  lemma SoleRun(num: int, den: int, root: string) returns (run: seq<System>, actions: seq<Action>)
    requires ValidThreshold(num, den) && 2 * num > den
    ensures IsRun(SoleConfig(num, den), {"v"}, run, actions) && FewFaulty(SoleConfig(num, den), {"v"})
    ensures |run| == 2 && "v" in run[1].nodes && |run[1].nodes["v"].chain| >= 1
  {
    hide ProposeIfLeader;
    var c, vs := SoleConfig(num, den), Equivocations.SOLE.validators;
    var sys := InitialSystem({"v"});
    InitialRun(c, {"v"});
    InitialKept(c, {"v"});
    InvFiled(c, sys);
    var a := Propose("v", root, 0, []);
    RunExtends(c, {"v"}, [sys], [], a);
    SoleProposes(num, den, root);
    run, actions := [sys] + [Next(c, sys, a)], [] + [a];
    assert vs[1..] == [] && TotalStake(vs) == 1;
    assert Faulty(vs, {"v"}) == {};
    WeightEmpty(vs);
  }
}
