/** What a node hands to its receiver, over one packet, a run, a chain of nodes and a whole network. */
module HandOver {
  import opened RadioTypes
  import opened TransportWire
  import opened Reassembly
  import opened ReassemblyRuns
  import opened Delivery
  import opened Deliverability
  import opened RadioTransports
  import opened Relay
  import Network

  /** The completed messages of a run that are addressed to the node or to all, in order. */
  function Addressed(local: u16, outs: seq<Outcome>): seq<Message> {
    if outs == [] then []
    else
      var last := |outs| - 1;
      Addressed(local, outs[..last]) +
        if outs[last].Completed? && outs[last].message.id.destination in {local, BROADCAST_NODE}
        then [outs[last].message] else []
  }

  /** The receiver's inbox once a node has disposed of everything a run completed. */
  function InboxAlong(hasReceiver: bool, before: seq<Message>, local: u16, outs: seq<Outcome>): seq<Message> {
    if outs == [] then before
    else
      var last := |outs| - 1;
      InboxAfter(hasReceiver, InboxAlong(hasReceiver, before, local, outs[..last]), Dispose(local, outs[last]))
  }

  /** A receiver gets every completed message addressed to its node or to all, once and in order, and nothing else. */
  lemma {:induction false} InboxIs(hasReceiver: bool, before: seq<Message>, local: u16, outs: seq<Outcome>)
    ensures InboxAlong(hasReceiver, before, local, outs) == before + if hasReceiver then Addressed(local, outs) else []
  {
    if outs == [] {
    } else {
      var last := |outs| - 1;
      InboxIs(hasReceiver, before, local, outs[..last]);
      InboxGains(hasReceiver, InboxAlong(hasReceiver, before, local, outs[..last]), local, outs[last]);
    }
  }

  // ----- a node that receives the frames of one message -----

  /** The messages among the disposals that were handed over. */
  function Deliveries(disposals: seq<Disposal>): seq<Message> {
    if disposals == [] then []
    else
      var last := |disposals| - 1;
      Deliveries(disposals[..last]) + if disposals[last].Deliver? then [disposals[last].message] else []
  }

  lemma DeliveriesAppend(disposals: seq<Disposal>, d: Disposal)
    ensures Deliveries(disposals + [d]) == Deliveries(disposals) + if d.Deliver? then [d.message] else []
  {
    assert (disposals + [d])[..|disposals|] == disposals;
  }

  lemma {:induction false} AddressedAreDeliveries(local: u16, outs: seq<Outcome>)
    ensures Addressed(local, outs) == Deliveries(Disposals(local, outs))
  {
    if outs == [] {
    } else {
      var last := |outs| - 1;
      var earlier, d := Disposals(local, outs[..last]), Dispose(local, outs[last]);
      AddressedAreDeliveries(local, outs[..last]);
      if d.Discard? {
        assert earlier + [] == earlier;
      } else {
        DeliveriesAppend(earlier, d);
      }
    }
  }

  lemma DeliveriesOfOne(d: Disposal)
    ensures Deliveries([d]) == if d.Deliver? then [d.message] else []
  {
    var none: seq<Disposal> := [];
    DeliveriesAppend(none, d);
    var more := if d.Deliver? then [d.message] else [];
    assert none + [d] == [d] && Deliveries(none) + more == more;
  }

  lemma OnlyLastHandedOver(local: u16, outs: seq<Outcome>)
    requires outs != [] && forall i | 0 <= i < |outs| - 1 :: outs[i] == Nothing
    ensures var out := outs[|outs| - 1];
            InboxAlong(true, [], local, outs) ==
              if out.Completed? && out.message.id.destination in {local, BROADCAST_NODE} then [out.message] else []
  {
    OnlyLastDisposed(local, outs);
    InboxIs(true, [], local, outs);
    AddressedAreDeliveries(local, outs);
    DeliveriesOfOne(Dispose(local, outs[|outs| - 1]));
  }

  /** Fed the frames of a message in order, a fresh node's receiver gets it once if it is for the node or for all. */
  lemma InOrderHandedOver(r: Run, s: Shipment, hop: u8)
    requires Unhindered(r.local, s) && s.hops == {hop}
    requires Feeds(r, r.local, EMPTY_TABLE, Frames(s.id, s.payload, s.chunk, hop))
    ensures InboxAlong(true, [], r.local, r.outs) ==
            if s.id.destination in {r.local, BROADCAST_NODE} then [Message(s.id, s.payload)] else []
  {
    InOrderCompletesLast(r, s, hop);
    OnlyLastHandedOver(r.local, r.outs);
  }

  /** Along a chain, the destination's receiver gets the original once, and no receiver on the way gets anything. */
  lemma ChainHandsOver(path: seq<Link>, runs: seq<Run>, id: Identity, p: bytes, hop: u8, k: nat)
    requires Chain(path, runs, id, p, hop) && Passable(path, id, p) && k < |path| && |path| - 1 <= hop
    ensures InboxAlong(true, [], path[k].local, runs[k].outs) == if k == |path| - 1 then [Message(id, p)] else []
  {
    var local, outs := path[k].local, runs[k].outs;
    ChainDelivers(path, runs, id, p, hop, k);
    InboxIs(true, [], local, outs);
    AddressedAreDeliveries(local, outs);
    DeliveriesOfOne(Disposals(local, outs)[0]);
  }

  // ----- a network -----

  /** The completions addressed to their node or to all. */
  function AddressedOf(completed: seq<Network.Arrived>): seq<Network.Arrived> {
    if completed == [] then []
    else
      var last := |completed| - 1;
      var c := completed[last];
      AddressedOf(completed[..last]) + if c.message.id.destination in {c.node, BROADCAST_NODE} then [c] else []
  }

  lemma AddressedAppend(completed: seq<Network.Arrived>, c: Network.Arrived)
    ensures AddressedOf(completed + [c]) ==
            AddressedOf(completed) + if c.message.id.destination in {c.node, BROADCAST_NODE} then [c] else []
  {
    assert (completed + [c])[..|completed|] == completed;
  }

  lemma ReceiveDelivers(n: Network.Network, v: u16, k: nat, frames: seq<bytes>, t': Table, out: Outcome)
    requires v in n.nodes && k < |n.air| && n.delivered == AddressedOf(n.completed)
    ensures var n' := Network.AfterReceive(n, v, k, frames, t', out); n'.delivered == AddressedOf(n'.completed)
  {
    if out.Completed? {
      AddressedAppend(n.completed, Network.Arrived(v, out.message));
    } else {
      assert n.completed + [] == n.completed;
    }
  }

  lemma StepDelivers(n: Network.Network, step: Network.Step, n': Network.Network)
    requires Network.NetStep(n, step, n') && n.delivered == AddressedOf(n.completed)
    ensures n'.delivered == AddressedOf(n'.completed)
  {
    if step.Receive? {
      var (t', out) := Receive(n.nodes[step.node].table, step.node, n.air[step.k], step.victim);
      ReceiveDelivers(n, step.node, step.k, step.frames, t', out);
    }
  }

  /** In every run of a network, exactly the completed messages for their node or for all are handed over, in order. */
  lemma {:induction false} DeliveredAreAddressed(nets: seq<Network.Network>, steps: seq<Network.Step>, i: nat)
    requires Network.NetRun(nets, steps) && i <= |steps|
    ensures nets[i].delivered == AddressedOf(nets[i].completed)
  {
    if i != 0 {
      DeliveredAreAddressed(nets, steps, i - 1);
      StepDelivers(nets[i - 1], steps[i - 1], nets[i]);
    }
  }

  lemma {:induction false} InAddressed(completed: seq<Network.Arrived>, c: Network.Arrived)
    ensures c in AddressedOf(completed) <==> c in completed && c.message.id.destination in {c.node, BROADCAST_NODE}
  {
    if completed == [] {
    } else {
      InAddressed(completed[..|completed| - 1], c);
    }
  }

  lemma DeliveredIffAddressed(nets: seq<Network.Network>, steps: seq<Network.Step>, c: Network.Arrived)
    requires Network.NetRun(nets, steps)
    ensures c in nets[|steps|].delivered <==>
            c in nets[|steps|].completed && c.message.id.destination in {c.node, BROADCAST_NODE}
  {
    DeliveredAreAddressed(nets, steps, |steps|);
    InAddressed(nets[|steps|].completed, c);
  }

  /** The identities completed at a node, in order. */
  function CompletedAt(completed: seq<Network.Arrived>, v: u16): seq<Identity> {
    if completed == [] then []
    else
      var last := |completed| - 1;
      CompletedAt(completed[..last], v) + if completed[last].node == v then [completed[last].message.id] else []
  }

  lemma CompletedAppend(completed: seq<Network.Arrived>, c: Network.Arrived, v: u16)
    ensures CompletedAt(completed + [c], v) == CompletedAt(completed, v) + if c.node == v then [c.message.id] else []
  {
    assert (completed + [c])[..|completed|] == completed;
  }

  lemma ReceiveCompletes(n: Network.Network, node: u16, k: nat, frames: seq<bytes>, t': Table, out: Outcome, v: u16)
    requires node in n.nodes && k < |n.air| && v in n.nodes
    requires CompletedAt(n.completed, v) == n.nodes[v].table.completed
    requires t'.completed == n.nodes[node].table.completed + if out.Completed? then [out.message.id] else []
    ensures var n' := Network.AfterReceive(n, node, k, frames, t', out);
            v in n'.nodes && CompletedAt(n'.completed, v) == n'.nodes[v].table.completed
  {
    if out.Completed? {
      CompletedAppend(n.completed, Network.Arrived(node, out.message), v);
    } else {
      assert n.completed + [] == n.completed;
    }
  }

  lemma StepCompletesAt(n: Network.Network, step: Network.Step, n': Network.Network, v: u16)
    requires Network.NetStep(n, step, n') && v in n.nodes
    requires CompletedAt(n.completed, v) == n.nodes[v].table.completed
    ensures v in n'.nodes && CompletedAt(n'.completed, v) == n'.nodes[v].table.completed
  {
    if step.Receive? {
      var (t', out) := Receive(n.nodes[step.node].table, step.node, n.air[step.k], step.victim);
      CompletionFits(n.nodes[step.node].table, step.node, n.air[step.k], step.victim);
      ReceiveCompletes(n, step.node, step.k, step.frames, t', out, v);
    }
  }

  /** The network's log has exactly what the nodes' tables completed. */
  lemma {:induction false} CompletedAreLogged(nets: seq<Network.Network>, steps: seq<Network.Step>, i: nat, v: u16)
    requires Network.NetRun(nets, steps) && i <= |steps| && v in nets[0].nodes
    ensures v in nets[i].nodes && CompletedAt(nets[i].completed, v) == nets[i].nodes[v].table.completed
  {
    if i != 0 {
      CompletedAreLogged(nets, steps, i - 1, v);
      StepCompletesAt(nets[i - 1], steps[i - 1], nets[i], v);
    }
  }
}
