/** The gossip node as the object whose maps are updated in place, proved against its specification on values. */
module GossipNodes {
  import opened ByteStrings
  import opened Stake
  import opened Ledger
  import Sortition
  import Spec = GossipSpec
  import opened GossipInvariants
  import GossipSystem

  /** The registered peers that a message of this sender goes to. */
  function Peers(order: seq<string>, reachable: (string, string) -> bool, from: string): seq<string> {
    if order == [] then []
    else
      var before, to := Peers(order[..|order| - 1], reachable, from), order[|order| - 1];
      if to == from || !reachable(from, to) then before else before + [to]
  }

  /**
   The in-process network: the registered nodes in order, and the queue of undelivered messages. The honest nodes are
   fixed from the start; those that have not joined yet are in their initial state.
   */
  class GossipBus {
    ghost const c: Spec.Config
    ghost const ids: set<string>
    var order: seq<string>
    var handlers: map<string, GossipNode>
    var queue: seq<(string, Spec.GossipMessage)>
    var reachable: (string, string) -> bool
    var delivered: nat
    /** The states of the system so far, and the steps between them. */
    ghost var trace: seq<GossipSystem.System>
    ghost var actions: seq<GossipSystem.Action>

    constructor (ghost c: Spec.Config, ghost ids: set<string>)
      ensures this.c == c && this.ids == ids && Valid() && actions == []
      ensures order == [] && handlers == map[] && queue == [] && delivered == 0
      ensures forall from, to :: reachable(from, to)
    {
      this.c, this.ids := c, ids;
      order, handlers, queue, delivered := [], map[], [], 0;
      reachable := (from, to) => true;
      trace, actions := [GossipSystem.InitialSystem(ids)], [];
      new;
      GossipSystem.InitialRun(c, ids);
    }

    ghost function Nodes(): set<object>
      reads this`handlers
    {
      set id | id in handlers :: handlers[id]
    }

    ghost function Ledgers(): set<object>
      reads this`handlers
    {
      set id | id in handlers :: handlers[id].ledger
    }

    ghost function States(): map<string, Spec.NodeState>
      reads this`handlers, Nodes(), Ledgers()
    {
      map id | id in handlers :: handlers[id].State()
    }

    /** What the bus and its nodes are as a state of the system. */
    ghost function View(): GossipSystem.System
      reads this`handlers, this`queue, Nodes(), Ledgers()
    {
      GossipSystem.System(Padded(ids, States()), queue)
    }

    /** Between steps every node is quiet and has handed over its messages. */
    ghost predicate Settled()
      reads this`order, this`handlers, Nodes(), Ledgers()
    {
      Registered(c, ids, order, handlers) && AllResting(c, States())
    }

    /** What has happened on the bus is a run of the system, which has led to its present state. */
    ghost predicate Valid()
      reads this, Nodes(), Ledgers()
    {
      Settled() && Traced(c, ids, trace, actions, View())
    }

    /** Partition the network; nothing else changes. */
    method SetReachability(reachable: (string, string) -> bool)
      requires Valid()
      modifies this`reachable
      ensures Valid() && this.reachable == reachable && View() == old(View())
    {
      hide Registered, AllResting, Padded, GossipSystem.IsRun;
      ghost var states := States();
      this.reachable := reachable;
      assert States() == states;
    }

    /** A new id goes to the end; a known one keeps its place. */
    method Register(id: string, node: GossipNode)
      modifies this`order, this`handlers
      ensures order == if id in old(order) then old(order) else old(order) + [id]
      ensures handlers == old(handlers)[id := node]
    {
      if id !in order { order := order + [id]; }
      handlers := handlers[id := node];
    }

    /** Queues a copy for every other registered peer that is reachable. */
    method Broadcast(from: string, m: Spec.GossipMessage)
      modifies this`queue
      ensures queue == old(queue) + GossipSystem.Copies(Peers(order, reachable, from), m)
    {
      for i := 0 to |order|
        invariant queue == old(queue) + GossipSystem.Copies(Peers(order[..i], reachable, from), m)
      {
        assert order[..i + 1][..i] == order[..i];
        if order[i] == from || !reachable(from, order[i]) { continue; }
        queue := queue + [(order[i], m)];
      }
      assert order[..|order|] == order;
    }

    method BroadcastAll(from: string, ms: seq<Spec.GossipMessage>)
      modifies this`queue
      ensures queue == old(queue) + GossipSystem.Broadcast(Peers(order, reachable, from), ms)
    {
      for i := 0 to |ms|
        invariant queue == old(queue) + GossipSystem.Broadcast(Peers(order, reachable, from), ms[..i])
      {
        assert ms[..i + 1][..i] == ms[..i];
        Broadcast(from, ms[i]);
      }
      assert ms[..|ms|] == ms;
    }

    /** Hand the messages that a node flooded in a step to the bus. */
    method Collect(node: GossipNode)
      modifies this`queue, node`outbox
      ensures node.State() == old(node.State()).(outbox := [])
      ensures queue == old(queue) + GossipSystem.Broadcast(Peers(order, reachable, node.id), old(node.outbox))
    {
      BroadcastAll(node.id, node.outbox);
      node.outbox := [];
    }

    /** A node handles a message, and what it flooded goes to the bus. */
    method Handle(node: GossipNode, m: Spec.GossipMessage)
      requires node.c == c && node.Wired() && Resting(c, node.State())
      modifies this`queue, node, node.ledger
      ensures Resting(c, node.State()) && Spec.Filed(old(node.State()).pending)
      ensures var r := Spec.OnMessage(c, node.id, old(node.State()), m);
              && node.State() == r.(outbox := [])
              && queue == old(queue) + GossipSystem.Broadcast(Peers(order, reachable, node.id), r.outbox)
    {
      hide Quiet, Spec.OnMessage, Spec.Filed, GossipSystem.Broadcast;
      node.OnMessage(m);
      EmptiedQuiet(c, node.State());
      Collect(node);
    }

    method HandleAt(to: string, m: Spec.GossipMessage, ghost before: map<string, Spec.NodeState>)
      requires Settled() && to in handlers && before == States()
      modifies this`queue, handlers[to], handlers[to].ledger
      ensures Settled() && Spec.Filed(before[to].pending)
      ensures var r := Spec.OnMessage(c, to, before[to], m);
              && States() == before[to := r.(outbox := [])]
              && queue == old(queue) + GossipSystem.Broadcast(Peers(order, reachable, to), r.outbox)
    {
      hide Resting, AllResting, Spec.OnMessage, Spec.Filed, GossipSystem.Broadcast, GossipNode.State, Peers;
      assert before[to] == handlers[to].State();
      RestingAt(c, before, to);
      Handle(handlers[to], m);
      assert States() == before[to := handlers[to].State()];
    }

    /** The last step led to the present state. */
    ghost method Record(a: GossipSystem.Action)
      requires Settled() && GossipSystem.IsRun(c, ids, trace, actions)
      requires GossipSystem.AllFiled(trace[|actions|]) && GossipSystem.Enabled(c, trace[|actions|], a)
      requires View() == GossipSystem.Next(c, trace[|actions|], a)
      modifies this`trace, this`actions
      ensures Valid() && trace == old(trace) + [View()] && actions == old(actions) + [a] && View() == old(View())
    {
      hide GossipSystem.IsRun, GossipSystem.Next, GossipSystem.Enabled, GossipSystem.AllFiled, Registered, AllResting;
      GossipSystem.RunExtends(c, ids, trace, actions, a);
      RunLength(c, ids, trace, actions);
      ghost var now, states := View(), States();
      trace, actions := trace + [now], actions + [a];
      assert States() == states;
    }

    /** Deliver the oldest message: a step of the system. */
    method DeliverNext()
      requires Valid() && |queue| > 0
      modifies this`queue, this`delivered, this`trace, this`actions, Nodes(), Ledgers()
      ensures Valid() && delivered == old(delivered) + 1
      ensures trace == old(trace) + [View()]
      ensures var to := old(queue)[0].0;
              actions == old(actions) + [if to in handlers then GossipSystem.Deliver(0, Peers(order, reachable, to))
                                         else GossipSystem.Drop(0)]
    {
      hide Resting, Registered, AllResting, States, Spec.OnMessage, Spec.Filed, GossipSystem.Broadcast,
           GossipSystem.AllFiled, GossipSystem.IsRun, Padded, Peers;
      ghost var sys, states := View(), States();
      RestingFiled(c, ids, states, queue);
      StatesOf();
      var (to, m) := queue[0];
      queue := queue[1..];
      delivered := delivered + 1;
      if to in handlers {
        HandleAt(to, m, states);
        PaddedAt(ids, states, to, States()[to]);
        Record(GossipSystem.Deliver(0, Peers(order, reachable, to)));
      } else {
        Record(GossipSystem.Drop(0));
      }
    }

    lemma StatesOf()
      requires Settled()
      ensures States().Keys == handlers.Keys && handlers.Keys <= ids
    {
    }

    method HandleProposal(node: GossipNode, payloadRoot: string, timestamp: int)
      returns (proposed: Completion<Option<Block>>)
      requires node.c == c && node.Wired() && Resting(c, node.State())
      modifies this`queue, node, node.ledger
      ensures Resting(c, node.State()) && Spec.Filed(old(node.State()).pending)
      ensures var r := Spec.ProposeIfLeader(c, node.id, old(node.State()), payloadRoot, timestamp);
              && node.State() == r.(outbox := [])
              && queue == old(queue) + GossipSystem.Broadcast(Peers(order, reachable, node.id), r.outbox)
    {
      hide Quiet, Spec.ProposeIfLeader, Spec.Proposal, Spec.Filed, GossipSystem.Broadcast;
      proposed := node.ProposeIfLeader(payloadRoot, timestamp);
      EmptiedQuiet(c, node.State());
      Collect(node);
    }

    method HandleProposalAt(id: string, payloadRoot: string, timestamp: int, ghost before: map<string, Spec.NodeState>)
      returns (proposed: Completion<Option<Block>>)
      requires Settled() && id in handlers && before == States()
      modifies this`queue, handlers[id], handlers[id].ledger
      ensures Settled() && Spec.Filed(before[id].pending)
      ensures var r := Spec.ProposeIfLeader(c, id, before[id], payloadRoot, timestamp);
              && States() == before[id := r.(outbox := [])]
              && queue == old(queue) + GossipSystem.Broadcast(Peers(order, reachable, id), r.outbox)
    {
      hide Resting, AllResting, Spec.ProposeIfLeader, Spec.Filed, GossipSystem.Broadcast, GossipNode.State, Peers;
      assert before[id] == handlers[id].State();
      RestingAt(c, before, id);
      proposed := HandleProposal(handlers[id], payloadRoot, timestamp);
      assert States() == before[id := handlers[id].State()];
    }

    /** Let a node propose: a step of the system. */
    method Propose(id: string, payloadRoot: string, timestamp: int) returns (proposed: Completion<Option<Block>>)
      requires Valid() && id in handlers
      modifies this`queue, this`trace, this`actions, handlers[id], handlers[id].ledger
      ensures Valid() && trace == old(trace) + [View()]
      ensures actions == old(actions)
                         + [GossipSystem.Propose(id, payloadRoot, timestamp, Peers(order, reachable, id))]
    {
      hide Resting, Registered, AllResting, States, Spec.ProposeIfLeader, Spec.Filed, GossipSystem.Broadcast,
           GossipSystem.AllFiled, GossipSystem.IsRun, Padded, Peers;
      ghost var states := States();
      RestingFiled(c, ids, states, queue);
      StatesOf();
      proposed := HandleProposalAt(id, payloadRoot, timestamp, states);
      PaddedAt(ids, states, id, States()[id]);
      Record(GossipSystem.Propose(id, payloadRoot, timestamp, Peers(order, reachable, id)));
    }

    /** An honest node joins. It was in its initial state all along, so nothing else changes. */
    method Join(c: Spec.Config, id: string) returns (node: GossipNode)
      requires Valid() && c == this.c && id in ids && id !in handlers
      modifies this`order, this`handlers
      ensures Valid() && fresh(node) && handlers == old(handlers)[id := node]
      ensures View() == old(View())
    {
      hide Resting, AllResting, Peers, GossipNode.State, Spec.InitialNode, Registered, GossipSystem.IsRun, Padded;
      ghost var before := States();
      StatesOf();
      node := new GossipNode(c, id, this);
      assert States() == before[id := Spec.InitialNode()];
      assert Registered(c, ids, order, handlers) by {
        RegisteredToo(c, ids, old(order), old(handlers), id, node);
      }
      assert AllResting(c, States()) by { InitialResting(c, before, id); }
      PaddedInitial(ids, before, id);
    }

    /** A message from elsewhere gets into the queue: a step of the adversary. */
    method Inject(to: string, m: Spec.GossipMessage)
      requires Valid() && GossipSystem.GenuineMessage(c, GossipSystem.Signers(View()), m)
      modifies this`queue, this`trace, this`actions
      ensures Valid() && trace == old(trace) + [View()] && actions == old(actions) + [GossipSystem.Inject(to, m)]
      ensures queue == old(queue) + [(to, m)] && GossipSystem.Signers(View()) == old(GossipSystem.Signers(View()))
    {
      hide Resting, Registered, AllResting, GossipSystem.AllFiled, GossipSystem.IsRun, Padded,
           GossipSystem.GenuineMessage, GossipSystem.Signers;
      RestingFiled(c, ids, States(), queue);
      ghost var sys, states := View(), States();
      queue := queue + [(to, m)];
      assert States() == states;
      SameSigners(sys, queue);
      Record(GossipSystem.Inject(to, m));
    }

    /** Anyone may broadcast a message that they can make. */
    method BroadcastForeign(from: string, m: Spec.GossipMessage)
      requires Valid() && GossipSystem.GenuineMessage(c, GossipSystem.Signers(View()), m)
      modifies this`queue, this`trace, this`actions
      ensures Valid() && old(trace) <= trace
      ensures queue == old(queue) + GossipSystem.Copies(Peers(order, reachable, from), m)
    {
      hide Settled, Traced, States, Padded, GossipSystem.GenuineMessage, GossipSystem.Signers;
      for i := 0 to |order|
        invariant Valid() && old(trace) <= trace
        invariant queue == old(queue) + GossipSystem.Copies(Peers(order[..i], reachable, from), m)
        invariant GossipSystem.Signers(View()) == old(GossipSystem.Signers(View()))
      {
        assert order[..i + 1][..i] == order[..i];
        if order[i] == from || !reachable(from, order[i]) { continue; }
        Inject(order[i], m);
      }
      assert order[..|order|] == order;
    }

    /** Deliver first in, first out until nothing is left or the cap is hit. */
    method Run(maxDeliveries: int) returns (n: nat, converged: bool)
      requires Valid()
      modifies this`queue, this`delivered, this`trace, this`actions, Nodes(), Ledgers()
      ensures Valid() && old(trace) <= trace
      ensures delivered == old(delivered) + n && |actions| == |old(actions)| + n
      ensures forall t :: |old(actions)| <= t < |actions| ==> actions[t].Deliver? || actions[t].Drop?
      ensures converged <==> queue == []
      ensures !converged ==> n >= maxDeliveries
    {
      hide Settled, GossipSystem.IsRun, States, Padded, Peers;
      n := 0;
      while |queue| > 0
        invariant Valid() && old(trace) <= trace
        invariant delivered == old(delivered) + n && |actions| == |old(actions)| + n
        invariant forall t :: |old(actions)| <= t < |actions| ==> actions[t].Deliver? || actions[t].Drop?
        decreases maxDeliveries - n
      {
        if n >= maxDeliveries { return n, false; }
        DeliverNext();
        n := n + 1;
      }
      converged := true;
    }

    lemma InView(id: string)
      requires Settled() && id in handlers
      ensures id in View().nodes && View().nodes[id].chain == handlers[id].ledger.blocks
    {
      hide Registered, AllResting, Padded;
      StatesOf();
      PaddedAt(ids, States(), id, States()[id]);
    }

    /** The chain that a node had at some moment agrees with the present chain of every node on the bus. */
    lemma Agree(t: nat, p: string, q: string, height: nat)
      requires Valid() && GossipSystem.FewFaulty(c, ids) && t <= |actions|
      requires p in trace[t].nodes && height < |trace[t].nodes[p].chain|
      requires q in handlers && height < |handlers[q].ledger.blocks|
      ensures trace[t].nodes[p].chain[height].hash == handlers[q].ledger.blocks[height].hash
    {
      hide GossipSystem.IsRun, Settled, States, Padded;
      InView(q);
      RunLength(c, ids, trace, actions);
      GossipSystem.RunInv(c, ids, trace, actions, t);
      GossipSystem.RunInv(c, ids, trace, actions, |actions|);
      GossipSystem.Agreement(c, ids, trace, actions, t, p, |actions|, q, height);
    }

    /** No two nodes on the bus have finalized different hashes at one height. */
    lemma AgreeNow(p: string, q: string, height: nat)
      requires Valid() && GossipSystem.FewFaulty(c, ids) && p in handlers && q in handlers
      requires height < |handlers[p].ledger.blocks| && height < |handlers[q].ledger.blocks|
      ensures handlers[p].ledger.blocks[height].hash == handlers[q].ledger.blocks[height].hash
    {
      hide GossipSystem.IsRun, Settled, States, Padded;
      InView(p);
      RunLength(c, ids, trace, actions);
      Agree(|actions|, p, q, height);
    }
  }

  /** The honest nodes are registered under their ids, and each has a chain of its own. */
  ghost predicate Registered(c: Spec.Config, ids: set<string>, order: seq<string>, handlers: map<string, GossipNode>) {
    && handlers.Keys <= ids
    && (forall id :: id in order <==> id in handlers)
    && (forall id :: id in handlers ==> handlers[id].id == id && handlers[id].c == c && handlers[id].Wired())
    && (forall id, other :: id in handlers && other in handlers && id != other ==>
        handlers[id].ledger != handlers[other].ledger)
  }

  lemma RegisteredToo(c: Spec.Config, ids: set<string>, order: seq<string>, handlers: map<string, GossipNode>,
                      id: string, node: GossipNode)
    requires Registered(c, ids, order, handlers) && id in ids && node.id == id && node.c == c && node.Wired()
    requires forall other :: other in handlers ==> handlers[other].ledger != node.ledger
    ensures Registered(c, ids, if id in order then order else order + [id], handlers[id := node])
  {
  }

  ghost predicate Traced(c: Spec.Config, ids: set<string>, trace: seq<GossipSystem.System>,
                         actions: seq<GossipSystem.Action>, now: GossipSystem.System) {
    GossipSystem.IsRun(c, ids, trace, actions) && trace[|actions|] == now
  }

  lemma RunLength(c: Spec.Config, ids: set<string>, trace: seq<GossipSystem.System>, actions: seq<GossipSystem.Action>)
    requires GossipSystem.IsRun(c, ids, trace, actions)
    ensures |trace| == |actions| + 1
  {
  }

  /** All honest nodes, those that have not joined in their initial state. */
  ghost function Padded(ids: set<string>, nodes: map<string, Spec.NodeState>): map<string, Spec.NodeState> {
    map id | id in ids :: if id in nodes then nodes[id] else Spec.InitialNode()
  }

  lemma PaddedAt(ids: set<string>, nodes: map<string, Spec.NodeState>, id: string, s: Spec.NodeState)
    requires id in ids && id in nodes
    ensures Padded(ids, nodes).Keys == ids && Padded(ids, nodes)[id] == nodes[id]
    ensures Padded(ids, nodes[id := s]) == Padded(ids, nodes)[id := s]
  {
  }

  lemma PaddedInitial(ids: set<string>, nodes: map<string, Spec.NodeState>, id: string)
    requires id !in nodes
    ensures Padded(ids, nodes[id := Spec.InitialNode()]) == Padded(ids, nodes)
  {
  }

  lemma SameSigners(sys: GossipSystem.System, net: seq<(string, Spec.GossipMessage)>)
    ensures GossipSystem.Signers(sys.(net := net)) == GossipSystem.Signers(sys)
  {
  }

  /** A node between steps. */
  ghost predicate Resting(c: Spec.Config, s: Spec.NodeState) {
    Quiet(c, s) && s.outbox == []
  }

  ghost predicate AllResting(c: Spec.Config, nodes: map<string, Spec.NodeState>) {
    forall id :: id in nodes ==> Resting(c, nodes[id])
  }

  lemma RestingAt(c: Spec.Config, nodes: map<string, Spec.NodeState>, id: string)
    requires AllResting(c, nodes) && id in nodes
    ensures Resting(c, nodes[id]) && forall s :: Resting(c, s) ==> AllResting(c, nodes[id := s])
  {
    hide Resting;
  }

  lemma InitialResting(c: Spec.Config, nodes: map<string, Spec.NodeState>, id: string)
    requires AllResting(c, nodes)
    ensures AllResting(c, nodes[id := Spec.InitialNode()])
  {
    InitialQuiet(c);
  }

  lemma RestingFiled(c: Spec.Config, ids: set<string>, nodes: map<string, Spec.NodeState>,
                     net: seq<(string, Spec.GossipMessage)>)
    requires AllResting(c, nodes)
    ensures GossipSystem.AllFiled(GossipSystem.System(Padded(ids, nodes), net))
  {
    hide Quiet, Spec.Filed;
    forall id | id in ids
      ensures Spec.Filed(Padded(ids, nodes)[id].pending)
    {
      InitialQuiet(c);
      GossipSystem.StateFiled(c, Padded(ids, nodes)[id]);
    }
  }

  lemma EmptiedQuiet(c: Spec.Config, s: Spec.NodeState)
    requires Quiet(c, s)
    ensures Quiet(c, s.(outbox := []))
  {
  }

  class GossipNode {
    const c: Spec.Config
    const id: string
    const ledger: Chain
    var known: map<string, Block>
    var pool: map<string, seq<Attestation>>
    var byValidator: map<string, set<string>>
    var attestedAt: map<int, string>
    var finalized: set<string>
    var pending: map<int, seq<Block>>
    var conflicts: seq<Spec.Conflict>
    var outbox: seq<Spec.GossipMessage>
    ghost var signed: set<(int, string)>

    /** A fresh node, registered on the bus. */
    constructor (c: Spec.Config, id: string, bus: GossipBus)
      modifies bus`order, bus`handlers
      ensures this.c == c && this.id == id && fresh(ledger)
      ensures Wired() && State() == Spec.InitialNode() && Quiet(c, State())
      ensures bus.order == if id in old(bus.order) then old(bus.order) else old(bus.order) + [id]
      ensures bus.handlers == old(bus.handlers)[id := this]
    {
      this.c, this.id := c, id;
      ledger := new Chain(c.cx, c.set_, c.suite, c.num, c.den);
      known, pool, byValidator, attestedAt, finalized, pending := map[], map[], map[], map[], {}, map[];
      conflicts, outbox, signed := [], [], {};
      new;
      InitialQuiet(c);
      bus.Register(id, this);
    }

    /** The node's chain verifies against the same set, suite and threshold as the node. */
    ghost predicate Wired() {
      ledger.cx == c.cx && ledger.set_ == c.set_ && ledger.suite == c.suite && ledger.num == c.num
          && ledger.den == c.den
    }

    ghost function State(): Spec.NodeState
      reads this, ledger
    {
      Spec.NodeState(ledger.blocks, known, pool, byValidator, attestedAt, finalized, pending, conflicts, signed, outbox)
    }

    /** Handle one message from a peer. */
    method OnMessage(m: Spec.GossipMessage)
      requires Wired() && Quiet(c, State())
      modifies this, ledger
      ensures Spec.Filed(old(pending)) && State() == Spec.OnMessage(c, id, old(State()), m)
      ensures Quiet(c, State())
    {
      ghost var before := State();
      QuietFiled(c, before, |before.chain|, |before.chain| + 1);
      match m {
        case BlockMsg(b) => OnBlock(b, true);
        case AttMsg(a) => OnAttestation(a);
      }
      DrainBuffered();
      OnMessageInv(c, id, before, m);
    }

    /** Propose a block if this node leads on its head, and deliver it to itself; without stake the sortition throws. */
    method ProposeIfLeader(payloadRoot: string, timestamp: int) returns (proposed: Completion<Option<Block>>)
      requires Wired() && Quiet(c, State())
      modifies this, ledger
      ensures Spec.Filed(old(pending)) && State() == Spec.ProposeIfLeader(c, id, old(State()), payloadRoot, timestamp)
      ensures Quiet(c, State())
      ensures proposed.Thrown? <==> TotalStake(c.set_.validators) == 0
      ensures proposed.Returned? ==>
              proposed.value == if old(Sortition.Leader(c.set_.validators, c.cx.draw(HeadHash(ledger.blocks), 0)))
                  == Some(id)
                          then Some(Spec.Proposal(c, id, old(State()), payloadRoot, timestamp)) else None
    {
      ProposeInv(c, id, State(), payloadRoot, timestamp);
      var head := HeadHash(ledger.blocks);
      var leader := Sortition.Leader(c.set_.validators, c.cx.draw(head, 0));
      Sortition.LeaderExists(c.set_.validators, c.cx.draw(head, 0));
      if leader.None? { return Thrown; }
      if leader != Some(id) { return Returned(None); }
      var header := Header(|ledger.blocks|, head, 0, id, payloadRoot, timestamp, None);
      var block := Block(header, c.sign(id, BlockMessage(c.suite, c.cx.blockHash(header))), c.suite, None, None);
      OnBlock(block, true);
      DrainBuffered();
      proposed := Returned(Some(block));
    }

    method OnBlock(block: Block, flood: bool)
      requires Wired()
      modifies this, ledger
      ensures State() == Spec.OnBlock(c, id, old(State()), block, flood)
    {
      var height := |ledger.blocks|;
      if block.header.height < height { return; }
      if block.header.height > height {
        BufferFuture(block);
        return;
      }
      var h := c.cx.blockHash(block.header);
      if h in known || |known| >= Spec.MAX_KNOWN_AT_HEIGHT { return; }
      known := known[h := block];
      outbox := outbox + if flood then [Spec.BlockMsg(block)] else [];
      AttestOnce(block, h);
      TryFinalize(h);
    }

    method AttestOnce(block: Block, h: string)
      requires Wired() && h == Spec.HashOf(c, block)
      modifies this, ledger
      ensures State() == Spec.AttestOnce(c, id, old(State()), block)
    {
      var height := block.header.height;
      if height !in attestedAt {
        if StakeOf(c.set_.validators, id) > 0 {
          attestedAt := attestedAt[height := h];
          signed := signed + {(height, h)};
          var sig := c.sign(id, AttestMessage(c.suite, height, h, c.cx.setId(c.set_)));
          OnAttestation(Attestation(h, height, id, c.suite, sig));
        }
      } else if attestedAt[height] != h {
        if |conflicts| < Spec.MAX_OBSERVED_CONFLICTS {
          conflicts := conflicts + [Spec.Conflict(height, attestedAt[height], h)];
        }
      }
    }

    method BufferFuture(block: Block)
      modifies this
      ensures State() == Spec.BufferFuture(c, old(State()), block)
    {
      var height, h := block.header.height, c.cx.blockHash(block.header);
      if height > |ledger.blocks| + Spec.MAX_FUTURE_HEIGHTS { return; }
      var list := if height in pending then pending[height] else [];
      for i := 0 to |list|
        invariant forall j :: 0 <= j < i ==> Spec.HashOf(c, list[j]) != h
      {
        if c.cx.blockHash(list[i].header) == h {
          assert Spec.HashOf(c, list[i]) == h;
          return;
        }
      }
      if |list| >= Spec.MAX_PENDING_PER_HEIGHT { return; }
      pending := pending[height := list + [block]];
      outbox := outbox + [Spec.BlockMsg(block)];
    }

    method OnAttestation(att: Attestation)
      requires Wired()
      modifies this, ledger
      ensures State() == Spec.OnAttestation(c, old(State()), att)
    {
      hide Spec.TryFinalize, Spec.Voters;
      if att.suite != c.suite { return; }
      if StakeOf(c.set_.validators, att.validator) <= 0 { return; }
      if !c.cx.verify(att.suite, att.sig, AttestMessage(att.suite, att.height, att.blockHash, c.cx.setId(c.set_)),
                      att.validator) { return; }
      var height := |ledger.blocks|;
      if att.height < height || att.height > height + Spec.MAX_FUTURE_HEIGHTS { return; }
      var byV := if att.blockHash in pool then pool[att.blockHash] else [];
      if att.validator in Spec.Voters(byV) { return; }
      var hashes := if att.validator in byValidator then byValidator[att.validator] else {};
      if att.blockHash !in hashes && |hashes| >= Spec.MAX_HASHES_PER_VALIDATOR { return; }
      if att.blockHash !in pool && |pool| >= Spec.MAX_ATTESTED_HASHES { return; }
      pool := pool[att.blockHash := byV + [att]];
      byValidator := byValidator[att.validator := hashes + {att.blockHash}];
      outbox := outbox + [Spec.AttMsg(att)];
      assert State() == Spec.AddToPool(old(State()), att);
      TryFinalize(att.blockHash);
    }

    method TryFinalize(hash: string)
      requires Wired()
      modifies this`finalized, ledger
      ensures State() == Spec.TryFinalize(c, old(State()), hash)
    {
      if hash in finalized { return; }
      if hash !in known || known[hash].header.height != |ledger.blocks| { return; }
      var ok := ledger.Submit(known[hash], if hash in pool then pool[hash] else []);
      if ok { finalized := finalized + {hash}; }
    }

    /** Prune, then replay the buffered blocks of the current height, as long as the chain advances. */
    method DrainBuffered()
      requires Wired() && Spec.Filed(pending)
      modifies this, ledger
      ensures State() == Spec.Drain(c, id, old(State()))
    {
      while true
        invariant Spec.Filed(pending) && Spec.Drain(c, id, State()) == Spec.Drain(c, id, old(State()))
        decreases |pending|
      {
        Prune();
        var height := |ledger.blocks|;
        if height !in pending { return; }
        var due := pending[height];
        pending := pending - {height};
        Replay(due);
        if |ledger.blocks| == height { return; }
      }
    }

    method Replay(due: seq<Block>)
      requires Wired() && forall i :: 0 <= i < |due| ==> due[i].header.height <= |ledger.blocks|
      modifies this, ledger
      ensures State() == Spec.Replay(c, id, old(State()), due)
    {
      for i := 0 to |due|
        invariant State() == Spec.Replay(c, id, old(State()), due[..i])
      {
        assert due[..i + 1][..i] == due[..i];
        OnBlock(due[i], false);
      }
      assert due[..|due|] == due;
    }

    method Prune()
      modifies this
      ensures State() == Spec.Prune(old(State()))
    {
      var height := |ledger.blocks|;
      PruneAttestedAt(height);
      PruneKnown(height);
      PrunePool(height);
      RebuildIndex();
      PrunePending(height);
    }

    method PruneAttestedAt(height: nat)
      modifies this`attestedAt
      ensures attestedAt == Spec.From(old(attestedAt), height)
    {
      var todo := attestedAt.Keys;
      while todo != {}
        invariant todo <= attestedAt.Keys && attestedAt.Keys <= old(attestedAt).Keys
        invariant forall k :: k in attestedAt ==> attestedAt[k] == old(attestedAt)[k]
        invariant forall k :: k in old(attestedAt) && k !in todo ==> (k in attestedAt <==> k >= height)
        decreases |todo|
      {
        var k := Pick(todo);
        todo := todo - {k};
        if k < height { attestedAt := attestedAt - {k}; }
      }
      assert forall k :: k in attestedAt <==> k in Spec.From(old(attestedAt), height);
    }

    method PrunePending(height: nat)
      modifies this`pending
      ensures pending == Spec.From(old(pending), height)
    {
      var todo := pending.Keys;
      while todo != {}
        invariant todo <= pending.Keys && pending.Keys <= old(pending).Keys
        invariant forall k :: k in pending ==> pending[k] == old(pending)[k]
        invariant forall k :: k in old(pending) && k !in todo ==> (k in pending <==> k >= height)
        decreases |todo|
      {
        var k := Pick(todo);
        todo := todo - {k};
        if k < height { pending := pending - {k}; }
      }
      assert forall k :: k in pending <==> k in Spec.From(old(pending), height);
    }

    /** Forget the blocks below the head and the attestations of those blocks. */
    method PruneKnown(height: nat)
      modifies this`known, this`pool
      ensures known == old(known) - Spec.StaleKnown(old(known), height)
      ensures pool == old(pool) - Spec.StaleKnown(old(known), height)
    {
      var todo := known.Keys;
      ghost var removed: set<string> := {};
      while todo != {}
        invariant todo <= known.Keys
        invariant known == old(known) - removed && pool == old(pool) - removed
        invariant removed == set h | h in Spec.StaleKnown(old(known), height) && h !in todo
        decreases |todo|
      {
        var h :| h in todo;
        todo := todo - {h};
        if known[h].header.height < height {
          known := known - {h};
          pool := pool - {h};
          removed := removed + {h};
        }
      }
      assert removed == Spec.StaleKnown(old(known), height);
    }

    /** Forget the attestations below the head, also those of blocks never received. */
    method PrunePool(height: nat)
      modifies this`pool
      ensures pool == old(pool) - Spec.StalePool(old(pool), height)
    {
      var todo := pool.Keys;
      ghost var removed: set<string> := {};
      while todo != {}
        invariant todo <= pool.Keys
        invariant pool == old(pool) - removed
        invariant removed == set h | h in Spec.StalePool(old(pool), height) && h !in todo
        decreases |todo|
      {
        var h :| h in todo;
        todo := todo - {h};
        if pool[h] != [] && pool[h][0].height < height {
          pool := pool - {h};
          removed := removed + {h};
        }
      }
      assert removed == Spec.StalePool(old(pool), height);
    }

    /** Rebuild the index from the pool. */
    method RebuildIndex()
      modifies this`byValidator
      ensures byValidator == Spec.IndexOf(pool)
    {
      byValidator := map[];
      var todo := pool.Keys;
      while todo != {}
        invariant todo <= pool.Keys
        invariant IndexedBy(byValidator, pool, pool.Keys - todo)
        decreases |todo|
      {
        var h :| h in todo;
        todo := todo - {h};
        IndexHash(h, pool.Keys - todo - {h});
        assert pool.Keys - todo - {h} + {h} == pool.Keys - todo;
      }
      IndexComplete(byValidator, pool);
    }

    method IndexHash(h: string, ghost done: set<string>)
      requires h in pool && h !in done && IndexedBy(byValidator, pool, done)
      modifies this`byValidator
      ensures IndexedBy(byValidator, pool, done + {h})
    {
      hide IndexedSoFar, IndexedBy, Spec.Voters;
      NoneSoFar(byValidator, pool, done, h);
      for i := 0 to |pool[h]|
        invariant IndexedSoFar(byValidator, pool, done, h, Spec.Voters(pool[h][..i]))
      {
        var v := pool[h][i].validator;
        var hashes := if v in byValidator then byValidator[v] else {};
        IndexOneMore(byValidator, pool, done, h, Spec.Voters(pool[h][..i]), v);
        byValidator := byValidator[v := hashes + {h}];
        assert pool[h][..i + 1] == pool[h][..i] + [pool[h][i]];
        VotersAppend(pool[h][..i], pool[h][i]);
      }
      assert pool[h][..|pool[h]|] == pool[h];
      AllSoFar(byValidator, pool, done, h);
    }
  }

  /** The index covers the hashes of `done`, and `h` for these voters. */
  ghost predicate IndexedSoFar(index: map<string, set<string>>, pool: map<string, seq<Attestation>>, done: set<string>,
                               h: string, voters: set<string>) {
    && (forall v :: Spec.HashesAt(index, v) == HashesIn(pool, done, v) + if v in voters then {h} else {})
    && (forall v :: v in index ==> index[v] != {})
  }

  lemma NoneSoFar(index: map<string, set<string>>, pool: map<string, seq<Attestation>>, done: set<string>, h: string)
    requires h in pool && IndexedBy(index, pool, done)
    ensures IndexedSoFar(index, pool, done, h, Spec.Voters(pool[h][..0]))
  {
    assert Spec.Voters(pool[h][..0]) == {};
  }

  lemma IndexOneMore(index: map<string, set<string>>, pool: map<string, seq<Attestation>>, done: set<string>, h: string,
                     voters: set<string>, v: string)
    requires IndexedSoFar(index, pool, done, h, voters)
    ensures IndexedSoFar(index[v := Spec.HashesAt(index, v) + {h}], pool, done, h, voters + {v})
  {
    hide HashesIn;
    var index' := index[v := Spec.HashesAt(index, v) + {h}];
    forall w
      ensures Spec.HashesAt(index', w) == HashesIn(pool, done, w) + if w in voters + {v} then {h} else {}
    {
      assert Spec.HashesAt(index, w) == HashesIn(pool, done, w) + if w in voters then {h} else {};
    }
  }

  lemma AllSoFar(index: map<string, set<string>>, pool: map<string, seq<Attestation>>, done: set<string>, h: string)
    requires h in pool && IndexedSoFar(index, pool, done, h, Spec.Voters(pool[h]))
    ensures IndexedBy(index, pool, done + {h})
  {
    forall v
      ensures Spec.HashesAt(index, v) == HashesIn(pool, done + {h}, v)
    {
      assert Spec.HashesAt(index, v) == HashesIn(pool, done, v) + if v in Spec.Voters(pool[h]) then {h} else {};
    }
  }

  method Pick(s: set<int>) returns (k: int)
    requires s != {}
    ensures k in s
  {
    assert (forall k :: k !in s) ==> s == {};
    k :| k in s;
  }

  /** The hashes of `done` that `v` is pooled for. */
  ghost function HashesIn(pool: map<string, seq<Attestation>>, done: set<string>, v: string): set<string> {
    set h | h in done && h in pool && v in Spec.Voters(pool[h])
  }

  /** The index covers the hashes of `done` and has no empty entries. */
  ghost predicate IndexedBy(index: map<string, set<string>>, pool: map<string, seq<Attestation>>, done: set<string>) {
    && (forall v :: Spec.HashesAt(index, v) == HashesIn(pool, done, v))
    && (forall v :: v in index ==> index[v] != {})
  }

  lemma IndexComplete(index: map<string, set<string>>, pool: map<string, seq<Attestation>>)
    requires IndexedBy(index, pool, pool.Keys)
    ensures index == Spec.IndexOf(pool)
  {
    forall v
      ensures v in index <==> v in Spec.VotersOf(pool)
      ensures v in index ==> index[v] == Spec.HashesOf(pool, v)
    {
      assert Spec.HashesAt(index, v) == HashesIn(pool, pool.Keys, v);
      assert HashesIn(pool, pool.Keys, v) == Spec.HashesOf(pool, v);
      VotersByHashes(pool, v);
    }
    IndexIs(pool, index);
  }
}
