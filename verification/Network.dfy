/**
  A network of nodes over a medium that loses, repeats, reorders and misdelivers frames: what is handed to a
  receiver anywhere is exactly some message that was sent.
 */
module Network {
  import opened Arithmetic
  import opened RadioTypes
  import opened TransportWire
  import opened RecentRing
  import opened Reassembly
  import opened GenuineMessages

  datatype Node = Node(table: Table, nextId: u16, hopLimit: u8)

  /** A message at the node it reached. */
  datatype Arrived = Arrived(node: u16, message: Message)

  /** `air` holds the frame copies in flight; the logs record every valid Send, completion and hand-over. */
  datatype Network = Network(
    nodes: map<u16, Node>, air: seq<bytes>,
    sent: seq<Message>, completed: seq<Arrived>, delivered: seq<Arrived>)

  datatype Step =
    | Send(node: u16, destination: u16, channel: u8, payload: bytes, frames: seq<bytes>)
    | Receive(node: u16, k: nat, victim: Identity, frames: seq<bytes>)
    | Lose(k: nat)
    | Repeat(k: nat)
    | Halt(node: u16)

  /** Message identities count up from 1 and skip 0. */
  function NextMessageId(id: u16): u16 {
    if id == 0xFFFF then 1 else id + 1
  }

  /** Frames a node may have put on the air for one message: any of its fragments, by any radio. */
  ghost predicate Emission(frames: seq<bytes>, m: Message, hop: u8) {
    forall b :: b in frames ==> FrameOf(b, m, hop)
  }

  ghost predicate FrameOf(b: bytes, m: Message, hop: u8) {
    exists chunk: u8 :: Sendable(|m.payload|, chunk) && b in Frames(m.id, m.payload, chunk, hop)
  }

  function Without<T>(s: seq<T>, k: nat): seq<T>
    requires k < |s|
  {
    s[..k] + s[k + 1..]
  }

  ghost predicate SendStep(n: Network, v: u16, destination: u16, channel: u8, payload: bytes, frames: seq<bytes>,
                           n': Network) {
    && v in n.nodes && destination != 0 && destination != v
    && var node := n.nodes[v];
       var m := Message(Identity(v, destination, channel, node.nextId), payload);
       && Emission(frames, m, node.hopLimit)
       && n' == n.(nodes := n.nodes[v := node.(nextId := NextMessageId(node.nextId))],
                   air := n.air + frames, sent := n.sent + [m])
  }

  /** The network after node `v` turned into `t'` on frame `k`, put `frames` on the air, and finished with `out`. */
  function AfterReceive(n: Network, v: u16, k: nat, frames: seq<bytes>, t': Table, out: Outcome): Network
    requires v in n.nodes && k < |n.air|
  {
    Network(
      n.nodes[v := n.nodes[v].(table := t')], Without(n.air, k) + frames, n.sent,
      n.completed + (if out.Completed? then [Arrived(v, out.message)] else []),
      n.delivered + (if Dispose(v, out).Deliver? then [Arrived(v, out.message)] else []))
  }

  /** Only a message that is sent on puts frames on the air. */
  ghost predicate Onward(v: u16, out: Outcome, frames: seq<bytes>) {
    match Dispose(v, out)
    case Forward(m, hop) => Emission(frames, m, hop)
    case _ => frames == []
  }

  ghost predicate ReceiveStep(n: Network, v: u16, k: nat, victim: Identity, frames: seq<bytes>, n': Network) {
    && v in n.nodes && k < |n.air| && Valid(n.nodes[v].table) && MayEvict(n.nodes[v].table, victim)
    && var (t', out) := Reassembly.Receive(n.nodes[v].table, v, n.air[k], victim);
       Onward(v, out, frames) && n' == AfterReceive(n, v, k, frames, t', out)
  }

  ghost predicate NetStep(n: Network, step: Step, n': Network) {
    match step
    case Send(v, destination, channel, payload, frames) => SendStep(n, v, destination, channel, payload, frames, n')
    case Receive(v, k, victim, frames) => ReceiveStep(n, v, k, victim, frames, n')
    case Lose(k) => k < |n.air| && n' == n.(air := Without(n.air, k))
    case Repeat(k) => k < |n.air| && n' == n.(air := n.air + [n.air[k]])
    case Halt(v) => v in n.nodes && n' == n.(nodes := n.nodes[v := n.nodes[v].(table := Stopped(n.nodes[v].table))])
  }

  ghost predicate Initial(n: Network) {
    && n.air == [] && n.sent == [] && n.completed == [] && n.delivered == []
    && forall v :: v in n.nodes ==> n.nodes[v].table == EMPTY_TABLE && n.nodes[v].nextId == 1
  }

  ghost predicate NetRun(nets: seq<Network>, steps: seq<Step>) {
    && |nets| == |steps| + 1 && Initial(nets[0])
    && forall i {:trigger steps[i]} :: 0 <= i < |steps| ==> NetStep(nets[i], steps[i], nets[i + 1])
  }

  // ----- integrity, as long as no identity is used for two messages -----

  ghost predicate Unique(sent: seq<Message>) {
    forall x, y :: x in sent && y in sent && x.id == y.id ==> x == y
  }

  ghost predicate GenuineFrame(sent: seq<Message>, b: bytes) {
    Parse(b).Some? ==> exists m :: m in sent && FragmentOf(Parse(b).value, m.id, m.payload)
  }

  ghost predicate GenuineEntry(sent: seq<Message>, id: Identity, a: Assembly) {
    exists m :: m in sent && m.id == id && GenuineAssembly(a, m.payload)
  }

  ghost predicate GenuineTable(sent: seq<Message>, t: Table) {
    Valid(t) && forall id :: id in t.assemblies ==> GenuineEntry(sent, id, t.assemblies[id])
  }

  ghost predicate GenuineAir(sent: seq<Message>, air: seq<bytes>) {
    forall b :: b in air ==> GenuineFrame(sent, b)
  }

  ghost predicate GenuineNodes(sent: seq<Message>, nodes: map<u16, Node>) {
    forall v :: v in nodes ==> GenuineTable(sent, nodes[v].table)
  }

  ghost predicate GenuineLogs(sent: seq<Message>, completed: seq<Arrived>, delivered: seq<Arrived>) {
    && (forall c :: c in completed ==> c.message in sent)
    && (forall d :: d in delivered ==> d.message in sent && d.message.id.destination in {d.node, BROADCAST_NODE})
  }

  ghost predicate Genuine(n: Network) {
    GenuineAir(n.sent, n.air) && GenuineNodes(n.sent, n.nodes) && GenuineLogs(n.sent, n.completed, n.delivered)
  }

  /** One packet at one node: the table stays genuine, and a completion is a message that was sent. */
  lemma GenuineArrival(sent: seq<Message>, t: Table, local: u16, data: bytes, victim: Identity)
    requires Unique(sent) && GenuineTable(sent, t) && GenuineFrame(sent, data) && MayEvict(t, victim)
    ensures var (t', out) := Reassembly.Receive(t, local, data, victim);
            GenuineTable(sent, t') && (out.Completed? ==> out.message in sent)
  {
    ReceiveKeepsValid(t, local, data, victim);
    var r := Parse(data);
    if r.Some? && Admits(t, local, r.value) {
      var f := r.value;
      var m :| m in sent && FragmentOf(f, m.id, m.payload);
      GenuineAccept(t, f, victim, m.payload);
      var t' := Accept(t, f, victim).0;
      forall x | x in t'.assemblies ensures GenuineEntry(sent, x, t'.assemblies[x]) {
        if x != f.id {
          AcceptFrame(t, f, victim, x);
        }
      }
    }
  }

  /** The frames of a message that was sent are genuine. */
  lemma EmissionIsGenuine(sent: seq<Message>, frames: seq<bytes>, m: Message, hop: u8)
    requires m in sent && Emission(frames, m, hop)
    ensures GenuineAir(sent, frames)
  {
    forall b | b in frames ensures GenuineFrame(sent, b) {
      assert FrameOf(b, m, hop);
      var chunk: u8 :| Sendable(|m.payload|, chunk) && b in Frames(m.id, m.payload, chunk, hop);
      FramesCarryPayload(m.id, m.payload, chunk, hop);
    }
  }

  lemma MoreSent(sent: seq<Message>, sent': seq<Message>, air: seq<bytes>, nodes: map<u16, Node>)
    requires GenuineAir(sent, air) && GenuineNodes(sent, nodes) && forall m :: m in sent ==> m in sent'
    ensures GenuineAir(sent', air) && GenuineNodes(sent', nodes)
  {
    forall b | b in air ensures GenuineFrame(sent', b) {
      assert GenuineFrame(sent, b);
    }
    forall v, id | v in nodes && id in nodes[v].table.assemblies
      ensures GenuineEntry(sent', id, nodes[v].table.assemblies[id])
    {
      assert GenuineEntry(sent, id, nodes[v].table.assemblies[id]);
    }
  }

  lemma AirGrows(sent: seq<Message>, air: seq<bytes>, more: seq<bytes>)
    requires GenuineAir(sent, air) && GenuineAir(sent, more)
    ensures GenuineAir(sent, air + more)
    ensures forall k: nat | k < |air| :: GenuineAir(sent, Without(air, k))
  {
  }

  lemma NodeUpdated(sent: seq<Message>, nodes: map<u16, Node>, v: u16, node: Node)
    requires GenuineNodes(sent, nodes) && GenuineTable(sent, node.table)
    ensures GenuineNodes(sent, nodes[v := node])
  {
  }

  lemma SendKeepsGenuine(n: Network, step: Step, n': Network)
    requires step.Send? && NetStep(n, step, n') && Genuine(n)
    ensures Genuine(n')
  {
    MoreSent(n.sent, n'.sent, n.air, n.nodes);
    EmissionIsGenuine(n'.sent, step.frames, n'.sent[|n.sent|], n.nodes[step.node].hopLimit);
    AirGrows(n'.sent, n.air, step.frames);
    NodeUpdated(n'.sent, n.nodes, step.node, n'.nodes[step.node]);
  }

  lemma AfterReceiveIsGenuine(n: Network, v: u16, k: nat, frames: seq<bytes>, t': Table, out: Outcome)
    requires v in n.nodes && k < |n.air| && Genuine(n)
    requires GenuineTable(n.sent, t') && (out.Completed? ==> out.message in n.sent)
    requires GenuineAir(n.sent, frames)
    ensures Genuine(AfterReceive(n, v, k, frames, t', out))
  {
    AirGrows(n.sent, n.air, []);
    AirGrows(n.sent, Without(n.air, k), frames);
    NodeUpdated(n.sent, n.nodes, v, n.nodes[v].(table := t'));
    LogsGrow(n, v, k, frames, t', out);
  }

  lemma LogsGrow(n: Network, v: u16, k: nat, frames: seq<bytes>, t': Table, out: Outcome)
    requires v in n.nodes && k < |n.air| && GenuineLogs(n.sent, n.completed, n.delivered)
    requires out.Completed? ==> out.message in n.sent
    ensures var n' := AfterReceive(n, v, k, frames, t', out); GenuineLogs(n.sent, n'.completed, n'.delivered)
  {
  }

  lemma OnwardIsGenuine(sent: seq<Message>, v: u16, out: Outcome, frames: seq<bytes>)
    requires Onward(v, out, frames) && (out.Completed? ==> out.message in sent)
    ensures GenuineAir(sent, frames)
  {
    if Dispose(v, out).Forward? {
      EmissionIsGenuine(sent, frames, out.message, out.hop - 1);
    }
  }

  lemma ReceiveKeepsGenuine(n: Network, v: u16, k: nat, victim: Identity, frames: seq<bytes>, n': Network)
    requires ReceiveStep(n, v, k, victim, frames, n') && Genuine(n) && Unique(n.sent)
    ensures Genuine(n')
  {
    assert n.air[k] in n.air;
    GenuineArrival(n.sent, n.nodes[v].table, v, n.air[k], victim);
    var (t', out) := Reassembly.Receive(n.nodes[v].table, v, n.air[k], victim);
    OnwardIsGenuine(n.sent, v, out, frames);
    AfterReceiveIsGenuine(n, v, k, frames, t', out);
  }

  lemma StepKeepsGenuine(n: Network, step: Step, n': Network)
    requires NetStep(n, step, n')
    ensures Genuine(n) && Unique(n.sent) ==> Genuine(n')
  {
    if Genuine(n) && Unique(n.sent) {
      match step
      case Send(_, _, _, _, _) => SendKeepsGenuine(n, step, n');
      case Receive(v, k, victim, frames) => ReceiveKeepsGenuine(n, v, k, victim, frames, n');
      case Lose(k) =>
        AirGrows(n.sent, n.air, []);
      case Repeat(k) =>
        assert n.air[k] in n.air;
        AirGrows(n.sent, n.air, [n.air[k]]);
      case Halt(v) =>
        HaltKeepsGenuine(n, v);
    }
  }

  lemma HaltKeepsGenuine(n: Network, v: u16)
    requires v in n.nodes && Genuine(n)
    ensures Genuine(n.(nodes := n.nodes[v := n.nodes[v].(table := Stopped(n.nodes[v].table))]))
  {
    StoppedKeepsValid(n.nodes[v].table);
    NodeUpdated(n.sent, n.nodes, v, n.nodes[v].(table := Stopped(n.nodes[v].table)));
  }

  // ----- identities: each of a node's first 65535 messages has its own -----

  const IDENTITIES := 0xFFFF

  function SendsOf(sent: seq<Message>, v: u16): seq<Message> {
    if sent == [] then []
    else
      var rest, m := SendsOf(sent[..|sent| - 1], v), sent[|sent| - 1];
      if m.id.source == v then rest + [m] else rest
  }

  ghost predicate Counted(sent: seq<Message>, nodes: map<u16, Node>) {
    && (forall m :: m in sent ==> m.id.source in nodes)
    && (forall v :: v in nodes ==> nodes[v].nextId == IdAt(|SendsOf(sent, v)|))
    && (forall v :: v in nodes ==> Numbered(SendsOf(sent, v)))
  }

  /** The message id of a node's send number `j`, counted from a fresh node. */
  function IdAt(j: nat): u16 {
    if j == 0 then 1 else NextMessageId(IdAt(j - 1))
  }

  lemma {:induction false} IdsCycle(j: nat)
    ensures IdAt(j) == j % IDENTITIES + 1
  {
    if j != 0 {
      IdsCycle(j - 1);
      QuotientIs(j - 1, (j - 1) / IDENTITIES, IDENTITIES);
      QuotientIs(j, (j - 1) / IDENTITIES, IDENTITIES);
      QuotientIs(j, (j - 1) / IDENTITIES + 1, IDENTITIES);
    }
  }

  ghost predicate Numbered(sends: seq<Message>) {
    forall j | 0 <= j < |sends| :: sends[j].id.messageId == IdAt(j)
  }

  lemma SentAppend(sent: seq<Message>, m: Message, v: u16)
    ensures SendsOf(sent + [m], v) == SendsOf(sent, v) + if m.id.source == v then [m] else []
  {
    assert (sent + [m])[..|sent|] == sent;
  }

  lemma SendKeepsCounted(sent: seq<Message>, nodes: map<u16, Node>, m: Message, node: Node)
    requires Counted(sent, nodes) && m.id.source in nodes
    requires m.id.messageId == nodes[m.id.source].nextId && node.nextId == NextMessageId(m.id.messageId)
    ensures Counted(sent + [m], nodes[m.id.source := node])
  {
    var nodes' := nodes[m.id.source := node];
    forall v | v in nodes'
      ensures nodes'[v].nextId == IdAt(|SendsOf(sent + [m], v)|) && Numbered(SendsOf(sent + [m], v))
    {
      SentAppend(sent, m, v);
      if v == m.id.source {
        NumberedAppend(SendsOf(sent, v), m);
      }
    }
  }

  lemma NumberedAppend(sends: seq<Message>, m: Message)
    requires Numbered(sends) && m.id.messageId == IdAt(|sends|)
    ensures Numbered(sends + [m]) && NextMessageId(m.id.messageId) == IdAt(|sends + [m]|)
  {
  }

  /** A step appends at most one message to the log, the sender's next, and moves no other counter. */
  ghost predicate Issues(n: Network, step: Step, n': Network) {
    if step.Send? then
      && step.node in n.nodes && step.node in n'.nodes && n'.nodes == n.nodes[step.node := n'.nodes[step.node]]
      && |n'.sent| == |n.sent| + 1
      && var m := n'.sent[|n.sent|];
         && n'.sent == n.sent + [m] && m.id.source == step.node
         && m.id.messageId == n.nodes[step.node].nextId
         && n'.nodes[step.node].nextId == NextMessageId(m.id.messageId)
    else
      && n'.sent == n.sent && n'.nodes.Keys == n.nodes.Keys
      && forall v :: v in n.nodes ==> n'.nodes[v].nextId == n.nodes[v].nextId
  }

  lemma StepIssues(n: Network, step: Step, n': Network)
    requires NetStep(n, step, n')
    ensures Issues(n, step, n')
  {
  }

  lemma IssuesKeepsCounted(n: Network, step: Step, n': Network)
    requires Counted(n.sent, n.nodes) && Issues(n, step, n')
    ensures Counted(n'.sent, n'.nodes)
  {
    if step.Send? {
      SendKeepsCounted(n.sent, n.nodes, n'.sent[|n.sent|], n'.nodes[step.node]);
    }
  }

  /** Two messages of one node share their message id exactly if they lie a multiple of 65535 sends apart. */
  lemma IdsRepeatEvery65535(n: Network, v: u16, i: nat, j: nat)
    requires Counted(n.sent, n.nodes) && v in n.nodes && i <= j < |SendsOf(n.sent, v)|
    ensures SendsOf(n.sent, v)[i].id.messageId != 0
    ensures SendsOf(n.sent, v)[i].id.messageId == SendsOf(n.sent, v)[j].id.messageId <==> (j - i) % IDENTITIES == 0
  {
    assert Numbered(SendsOf(n.sent, v));
    IdsCycle(i);
    IdsCycle(j);
    EqualRemainders(i, j, IDENTITIES);
  }

  lemma {:induction false} SentIsSendOf(sent: seq<Message>, m: Message) returns (j: nat)
    requires m in sent
    ensures j < |SendsOf(sent, m.id.source)| && SendsOf(sent, m.id.source)[j] == m
  {
    var last := |sent| - 1;
    if sent[last] == m {
      j := |SendsOf(sent, m.id.source)| - 1;
    } else {
      j := SentIsSendOf(sent[..last], m);
    }
  }

  ghost predicate FewSends(n: Network) {
    forall v :: v in n.nodes ==> |SendsOf(n.sent, v)| <= IDENTITIES
  }

  lemma FewSendsAreUnique(n: Network)
    requires Counted(n.sent, n.nodes) && FewSends(n)
    ensures Unique(n.sent)
  {
    forall x, y | x in n.sent && y in n.sent && x.id == y.id ensures x == y {
      var i := SentIsSendOf(n.sent, x);
      var j := SentIsSendOf(n.sent, y);
      assert x.id.source in n.nodes;
      NumberedOnce(SendsOf(n.sent, x.id.source), i, j);
    }
  }

  lemma NumberedOnce(sends: seq<Message>, i: nat, j: nat)
    requires Numbered(sends) && |sends| <= IDENTITIES && i < |sends| && j < |sends|
    ensures sends[i].id == sends[j].id ==> i == j
  {
    IdsCycle(i);
    IdsCycle(j);
    QuotientIs(i, 0, IDENTITIES);
    QuotientIs(j, 0, IDENTITIES);
  }

  // ----- what was suppressed as a duplicate had been completed -----

  ghost predicate Logged(nodes: map<u16, Node>, completed: seq<Arrived>) {
    forall v, id :: v in nodes && id in nodes[v].table.completed ==> Finished(completed, v, id)
  }

  ghost predicate Finished(completed: seq<Arrived>, v: u16, id: Identity) {
    exists c :: c in completed && c.node == v && c.message.id == id
  }

  lemma LogReceive(nodes: map<u16, Node>, completed: seq<Arrived>, v: u16, t': Table, more: seq<Arrived>)
    requires v in nodes && Logged(nodes, completed)
    requires forall id :: id in t'.completed ==> id in nodes[v].table.completed || Finished(more, v, id)
    ensures Logged(nodes[v := nodes[v].(table := t')], completed + more)
  {
    var nodes', all := nodes[v := nodes[v].(table := t')], completed + more;
    forall w, id | w in nodes' && id in nodes'[w].table.completed ensures Finished(all, w, id) {
      if Finished(completed, w, id) {
        var c :| c in completed && c.node == w && c.message.id == id;
        assert c in all;
      } else {
        var c :| c in more && c.node == w && c.message.id == id;
        assert c in all;
      }
    }
  }

  lemma StepKeepsLogged(n: Network, step: Step, n': Network)
    requires NetStep(n, step, n')
    ensures Logged(n.nodes, n.completed) ==> Logged(n'.nodes, n'.completed)
  {
    if step.Receive? && Logged(n.nodes, n.completed) {
      var (t', out) := Reassembly.Receive(n.nodes[step.node].table, step.node, n.air[step.k], step.victim);
      CompletionFits(n.nodes[step.node].table, step.node, n.air[step.k], step.victim);
      var more := if out.Completed? then [Arrived(step.node, out.message)] else [];
      if out.Completed? {
        assert Arrived(step.node, out.message) in more;
      }
      LogReceive(n.nodes, n.completed, step.node, t', more);
    }
  }

  // ----- whole runs -----

  lemma {:induction false} RunIsCounted(nets: seq<Network>, steps: seq<Step>, i: nat)
    requires NetRun(nets, steps) && i <= |steps|
    ensures Counted(nets[i].sent, nets[i].nodes)
  {
    if i != 0 {
      StepIssues(nets[i - 1], steps[i - 1], nets[i]);
      RunIsCounted(nets, steps, i - 1);
      IssuesKeepsCounted(nets[i - 1], steps[i - 1], nets[i]);
    }
  }

  lemma StepKeepsTables(n: Network, step: Step, n': Network)
    requires NetStep(n, step, n') && forall v | v in n.nodes :: Valid(n.nodes[v].table)
    ensures forall v | v in n'.nodes :: Valid(n'.nodes[v].table)
  {
    if step.Receive? {
      ReceiveKeepsValid(n.nodes[step.node].table, step.node, n.air[step.k], step.victim);
    } else if step.Halt? {
      StoppedKeepsValid(n.nodes[step.node].table);
    }
  }

  /** Every table of every run is valid, so what a packet step asks of its table excludes no packet. */
  lemma {:induction false} TablesStayValid(nets: seq<Network>, steps: seq<Step>, i: nat)
    requires NetRun(nets, steps) && i <= |steps|
    ensures forall v | v in nets[i].nodes :: Valid(nets[i].nodes[v].table)
  {
    if i == 0 {
      EmptyIsValid();
    } else {
      TablesStayValid(nets, steps, i - 1);
      StepKeepsTables(nets[i - 1], steps[i - 1], nets[i]);
    }
  }

  lemma {:induction false} RunIsLogged(nets: seq<Network>, steps: seq<Step>, i: nat)
    requires NetRun(nets, steps) && i <= |steps|
    ensures Logged(nets[i].nodes, nets[i].completed)
  {
    if i != 0 {
      StepKeepsLogged(nets[i - 1], steps[i - 1], nets[i]);
      RunIsLogged(nets, steps, i - 1);
    }
  }

  lemma {:induction false} RunIsGenuine(nets: seq<Network>, steps: seq<Step>, i: nat)
    requires NetRun(nets, steps) && i <= |steps| && Unique(nets[i].sent)
    ensures Genuine(nets[i])
  {
    if i == 0 {
      EmptyIsValid();
    } else {
      StepIssues(nets[i - 1], steps[i - 1], nets[i]);
      StepKeepsGenuine(nets[i - 1], steps[i - 1], nets[i]);
      RunIsGenuine(nets, steps, i - 1);
    }
  }

  /**
    End-to-end integrity: as long as no node has sent more than 65535 messages, every message handed to a receiver,
    at any node and after any forwarding, is one that was sent, bit for bit, and is addressed to that node or to all.
   */
  lemma DeliveredWasSent(nets: seq<Network>, steps: seq<Step>, d: Arrived)
    requires NetRun(nets, steps) && FewSends(nets[|steps|]) && d in nets[|steps|].delivered
    ensures d.message in nets[|steps|].sent
    ensures d.message.id.destination in {d.node, BROADCAST_NODE}
  {
    RunIsCounted(nets, steps, |steps|);
    FewSendsAreUnique(nets[|steps|]);
    RunIsGenuine(nets, steps, |steps|);
  }

  /** A message is suppressed as a duplicate at a node only if that very message had completed there. */
  lemma SuppressedWasCompleted(nets: seq<Network>, steps: seq<Step>, v: u16, m: Message)
    requires NetRun(nets, steps) && FewSends(nets[|steps|])
    requires v in nets[|steps|].nodes && m in nets[|steps|].sent && Recent(nets[|steps|].nodes[v].table, m.id)
    ensures Arrived(v, m) in nets[|steps|].completed
  {
    var n := nets[|steps|];
    RunIsCounted(nets, steps, |steps|);
    FewSendsAreUnique(n);
    RunIsLogged(nets, steps, |steps|);
    RunIsGenuine(nets, steps, |steps|);
    HeldWasWritten(n.nodes[v].table.completed, MAX_RECENT_MESSAGES, SIZE_MODULUS, m.id);
    assert Finished(n.completed, v, m.id);
  }
}
