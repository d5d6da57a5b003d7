/** What a node and its radios do are steps of the network model, and what they put on the air is bounded. */
module NodeSteps {
  import opened Arithmetic
  import opened RadioTypes
  import opened Fragmentation
  import opened TransportWire
  import opened Reassembly
  import opened Radios
  import opened RadioTransports
  import Network
  import Quiescence

  // ----- what a radio newly put on the air -----

  function FramesOf(ts: seq<Transmission>): (frames: seq<bytes>)
    ensures |frames| == |ts|
  {
    seq(|ts|, (i: nat) requires i < |ts| => ts[i].frame)
  }

  function NewFrames(s: RadioState, s': RadioState): seq<bytes> {
    if s.sent <= s'.sent then FramesOf(s'.sent[|s.sent|..]) else []
  }

  lemma PrefixIsEmission(id: Identity, hop: u8, payload: bytes, chunk: u8, k: nat)
    requires Sendable(|payload|, chunk) && k <= FragmentCount(|payload|, chunk)
    ensures Network.Emission(Frames(id, payload, chunk, hop)[..k], Message(id, payload), hop)
  {
    var frames := Frames(id, payload, chunk, hop);
    forall b | b in frames[..k] ensures Network.FrameOf(b, Message(id, payload), hop) {
      assert b in frames;
    }
  }

  lemma FramesOfTo(nextHop: RadioAddress, frames: seq<bytes>)
    ensures FramesOf(To(nextHop, frames)) == frames
  {
  }

  /** What a radio in state `s` takes for a message: some prefix of its frames. */
  lemma ViaTakes(r: Radio, s: RadioState, nextHop: RadioAddress, id: Identity, hop: u8, payload: bytes)
    requires Refusal(s.started, r.mtu, |payload|).None?
    ensures var frames := Frames(id, payload, FragmentPayloadBytes(r.mtu), hop);
            var after := AfterVia(r, s, nextHop, id, hop, payload);
            && s.sent <= after.sent
            && NewFrames(s, after) == frames[..Taken(r.verdicts, s.attempts, |frames|)]
  {
    var frames := Frames(id, payload, FragmentPayloadBytes(r.mtu), hop);
    var after := AfterVia(r, s, nextHop, id, hop, payload);
    var k := Taken(r.verdicts, s.attempts, |frames|);
    assert after.sent[|s.sent|..] == To(nextHop, frames[..k]);
    FramesOfTo(nextHop, frames[..k]);
  }

  /** What a radio takes for a message are at most 255 frames, all of that message. */
  lemma TakenIsEmission(w: Wiring, r: Radio, s: RadioState, id: Identity, hop: u8, payload: bytes)
    ensures var after := StateAfter(w, r, s, id, hop, payload);
            && s.sent <= after.sent && |NewFrames(s, after)| <= 255
            && Network.Emission(NewFrames(s, after), Message(id, payload), hop)
  {
    if NextHopVia(w, r, id.destination).Some? && Refusal(s.started, r.mtu, |payload|).None? {
      var chunk := FragmentPayloadBytes(r.mtu);
      var k := Taken(r.verdicts, s.attempts, FragmentCount(|payload|, chunk));
      ViaTakes(r, s, NextHopVia(w, r, id.destination).value, id, hop, payload);
      PrefixIsEmission(id, hop, payload, chunk, k);
    }
  }

  /** A message for one node leaves through one radio at most, and the others stay as they are. */
  lemma OneRadioSends(w: Wiring, r: Radio, other: Radio, s: RadioState, id: Identity, hop: u8, payload: bytes)
    requires id.destination != BROADCAST_NODE && NextHopVia(w, r, id.destination).Some? && other != r
    ensures StateAfter(w, other, s, id, hop, payload) == s
  {
  }

  /** Frames that the neighbours of a node may hear: copies of what one of its radios newly sent. */
  ghost predicate Heard(frames: seq<bytes>, r: Radio, before: map<Radio, RadioState>, after: map<Radio, RadioState>,
                        fanOut: nat)
    requires r in before && r in after
  {
    var sent := NewFrames(before[r], after[r]);
    |frames| <= |sent| * fanOut && forall b | b in frames :: b in sent
  }

  lemma HeardIsEmission(frames: seq<bytes>, r: Radio, w: Wiring, before: map<Radio, RadioState>, id: Identity, hop: u8,
                        payload: bytes, fanOut: nat)
    requires r in before && Heard(frames, r, before, StatesAfter(w, before, id, hop, payload), fanOut)
    ensures Network.Emission(frames, Message(id, payload), hop) && |frames| <= 255 * fanOut
  {
    TakenIsEmission(w, r, before[r], id, hop, payload);
    MulMono(|NewFrames(before[r], StateAfter(w, r, before[r], id, hop, payload))|, 255, fanOut);
  }

  // ----- the steps of a node -----

  /**
    A packet taken by a node whose table is `t` is a step of the network, whichever neighbours hear what it sends on.
   */
  lemma PacketIsNetworkStep(n: Network.Network, v: u16, k: nat, t': Table, out: Outcome, w: Wiring,
                            before: map<Radio, RadioState>, r: Radio, frames: seq<bytes>, fanOut: nat)
    returns (victim: Identity)
    requires v in n.nodes && k < |n.air| && Valid(n.nodes[v].table) && r in before
    requires Arrival(n.nodes[v].table, v, n.air[k], t', out)
    requires Heard(frames, r, before, RadiosAfter(w, before, Dispose(v, out)), fanOut)
    ensures Network.NetStep(n, Network.Receive(v, k, victim, frames), Network.AfterReceive(n, v, k, frames, t', out))
    ensures Quiescence.Quiet(Network.Receive(v, k, victim, frames), 255 * fanOut)
  {
    victim :| MayEvict(n.nodes[v].table, victim) && Receive(n.nodes[v].table, v, n.air[k], victim) == (t', out);
    var d := Dispose(v, out);
    if d.Forward? {
      HeardIsEmission(frames, r, w, before, d.message.id, d.hop, d.message.payload, fanOut);
    }
  }

  /** The other radios are silent meanwhile: what a packet sets off leaves through the route of its message. */
  lemma OnlyTheRouteForwards(w: Wiring, before: map<Radio, RadioState>, v: u16, out: Outcome, r: Radio)
    requires r in before
    ensures var d, after := Dispose(v, out), RadiosAfter(w, before, Dispose(v, out));
            && r in after
            && (after[r] != before[r] ==>
                  && d.Forward? && d.message.id.destination != BROADCAST_NODE
                  && NextHopVia(w, r, d.message.id.destination).Some?
                  && forall x | x in before && x != r :: after[x] == before[x])
  {
    var d := Dispose(v, out);
    if d.Forward? && NextHopVia(w, r, d.message.id.destination).Some? {
      forall x | x in before && x != r ensures RadiosAfter(w, before, d)[x] == before[x] {
        OneRadioSends(w, r, x, before[x], d.message.id, d.hop, d.message.payload);
      }
    }
  }

  /** The network once node `v` has sent `m` and its neighbours hear `frames`. */
  function AfterSend(n: Network.Network, v: u16, m: Message, frames: seq<bytes>): Network.Network
    requires v in n.nodes
  {
    var node := n.nodes[v];
    n.(nodes := n.nodes[v := node.(nextId := Network.NextMessageId(node.nextId))], air := n.air + frames,
       sent := n.sent + [m])
  }

  /** Frames that the neighbours of all radios may hear of one message: copies of what any of them newly sent. */
  ghost predicate HeardOfAny(frames: seq<bytes>, before: map<Radio, RadioState>, after: map<Radio, RadioState>) {
    forall b | b in frames :: exists r | r in before && r in after :: b in NewFrames(before[r], after[r])
  }

  lemma AnyIsEmission(frames: seq<bytes>, w: Wiring, before: map<Radio, RadioState>, id: Identity, hop: u8,
                      payload: bytes)
    requires HeardOfAny(frames, before, StatesAfter(w, before, id, hop, payload))
    ensures Network.Emission(frames, Message(id, payload), hop)
  {
    var after := StatesAfter(w, before, id, hop, payload);
    forall b | b in frames ensures Network.FrameOf(b, Message(id, payload), hop) {
      var r :| r in before && r in after && b in NewFrames(before[r], after[r]);
      TakenIsEmission(w, r, before[r], id, hop, payload);
    }
  }

  /**
    A Send that is not turned away, a broadcast through several radios included, is one step of the network: the same
    message, id and counter, and only its frames.
   */
  lemma SendIsNetworkStep(n: Network.Network, v: u16, destination: u16, channel: u8, payload: bytes,
                          w: Wiring, before: map<Radio, RadioState>, frames: seq<bytes>)
    requires v in n.nodes && destination !in {0, v}
    requires var id := Identity(v, destination, channel, n.nodes[v].nextId);
             HeardOfAny(frames, before, StatesAfter(w, before, id, n.nodes[v].hopLimit, payload))
    ensures var m := Message(Identity(v, destination, channel, n.nodes[v].nextId), payload);
            Network.NetStep(n, Network.Send(v, destination, channel, payload, frames), AfterSend(n, v, m, frames))
  {
    var id := Identity(v, destination, channel, n.nodes[v].nextId);
    AnyIsEmission(frames, w, before, id, n.nodes[v].hopLimit, payload);
  }

  /** Stopping a node whose table is `t` is a step of the network that puts nothing on the air. */
  lemma StopIsNetworkStep(n: Network.Network, v: u16, s: RadioState)
    requires v in n.nodes
    ensures var n' := n.(nodes := n.nodes[v := n.nodes[v].(table := Stopped(n.nodes[v].table))]);
            Network.NetStep(n, Network.Halt(v), n') && NewFrames(s, s.(started := false)) == []
  {
  }

  // ----- silence -----

  /** The radios of the node that takes step `i`, how they are wired, and the one whose frames are heard. */
  datatype Setting = Setting(w: Wiring, states: map<Radio, RadioState>, carrier: Radio)

  /** A step in which nobody sends and the medium copies nothing, but each frame may reach `fanOut` neighbours. */
  ghost predicate Driven(n: Network.Network, step: Network.Step, s: Setting, fanOut: nat) {
    && !step.Send? && !step.Repeat?
    && (step.Receive? ==>
          && step.node in n.nodes && step.k < |n.air| && Valid(n.nodes[step.node].table) && s.carrier in s.states
          && var out := Receive(n.nodes[step.node].table, step.node, n.air[step.k], step.victim).1;
             Heard(step.frames, s.carrier, s.states, RadiosAfter(s.w, s.states, Dispose(step.node, out)), fanOut))
  }

  lemma DrivenIsQuiet(n: Network.Network, step: Network.Step, s: Setting, fanOut: nat)
    requires Driven(n, step, s, fanOut)
    ensures Quiescence.Quiet(step, 255 * fanOut)
  {
    if step.Receive? {
      var d := Dispose(step.node, Receive(n.nodes[step.node].table, step.node, n.air[step.k], step.victim).1);
      if d.Forward? {
        HeardIsEmission(step.frames, s.carrier, s.w, s.states, d.message.id, d.hop, d.message.payload, fanOut);
      }
    }
  }

  /**
    A network of such nodes falls silent: if no frame is heard by more than `fanOut` nodes, at most as many packets are
    processed and lost as the network weighs.
   */
  lemma NodesFallSilent(nets: seq<Network.Network>, steps: seq<Network.Step>, settings: seq<Setting>, fanOut: nat)
    requires |nets| == |steps| + 1 && |settings| == |steps|
    requires forall i {:trigger steps[i]} | 0 <= i < |steps| ::
               Network.NetStep(nets[i], steps[i], nets[i + 1]) && Driven(nets[i], steps[i], settings[i], fanOut)
    ensures Quiescence.Packets(steps) + Quiescence.Weight(nets[|steps|], 255 * fanOut) <=
            Quiescence.Weight(nets[0], 255 * fanOut)
  {
    forall i | 0 <= i < |steps| ensures Quiescence.Quiet(steps[i], 255 * fanOut) {
      DrivenIsQuiet(nets[i], steps[i], settings[i], fanOut);
    }
    Quiescence.QuietRunIsBounded(nets, steps, 255 * fanOut);
  }
}
