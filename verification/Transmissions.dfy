/** Where a node's frames go: through which radio, to which neighbour, and when nowhere at all. */
module Transmissions {
  import opened RadioTypes
  import opened TransportWire
  import opened Reassembly
  import opened Radios
  import opened RadioTransports
  import opened NodeSteps
  import Relay

  function NewTransmissions(s: RadioState, s': RadioState): seq<Transmission> {
    if s.sent <= s'.sent then s'.sent[|s.sent|..] else []
  }

  /** The address of everybody on a link. */
  function AllOnes(length: nat): RadioAddress {
    if 0 < length <= 8 then seq(length, _ => 0xFF) else []
  }

  lemma BroadcastAddressIs(length: u8)
    ensures BroadcastAddress(length) == AllOnes(length)
  {
  }

  /** Messages for this one node leave through `r`. */
  ghost predicate Leads(w: Wiring, r: Radio, destination: u16) {
    if destination in w.routes then w.routes[destination].radio == r else DefaultRadio(w.interfaces) == Some(r)
  }

  /** A message for this destination may leave through `r`: if it is for all, through every radio that can broadcast. */
  ghost predicate Carries(w: Wiring, r: Radio, destination: u16) {
    if destination == 0xFFFF then r.broadcast else Leads(w, r, destination)
  }

  /** The neighbour it is addressed to: a route's next hop, and otherwise everybody. */
  ghost function Neighbour(w: Wiring, r: Radio, destination: u16): RadioAddress {
    if destination != 0xFFFF && destination in w.routes then w.routes[destination].nextHop else AllOnes(r.addressBytes)
  }

  /** A message leaves only through radios that carry it, and all its frames are addressed to the one neighbour. */
  lemma TransmissionsGoTo(w: Wiring, r: Radio, s: RadioState, id: Identity, hop: u8, payload: bytes)
    ensures var after := StateAfter(w, r, s, id, hop, payload);
            && s.sent <= after.sent
            && (!Carries(w, r, id.destination) ==> after == s)
            && forall t | t in NewTransmissions(s, after) :: t.nextHop == Neighbour(w, r, id.destination)
  {
    BroadcastAddressIs(r.addressBytes);
  }

  ghost predicate AcceptsAll(r: Radio) {
    forall k: nat :: r.verdicts(k).Accepted?
  }

  /** A started radio that carries a message and refuses nothing takes all its frames, if they fit the link. */
  lemma AllTransmitted(w: Wiring, r: Radio, s: RadioState, id: Identity, hop: u8, payload: bytes)
    requires s.started && AcceptsAll(r) && Carries(w, r, id.destination)
    ensures var after, chunk := StateAfter(w, r, s, id, hop, payload), FragmentPayloadBytes(r.mtu);
            && after.started && s.sent <= after.sent
            && NewTransmissions(s, after) ==
               if Sendable(|payload|, chunk) then To(Neighbour(w, r, id.destination), Frames(id, payload, chunk, hop))
               else []
  {
    var chunk := FragmentPayloadBytes(r.mtu);
    BroadcastAddressIs(r.addressBytes);
    if Sendable(|payload|, chunk) {
      var frames := Frames(id, payload, chunk, hop);
      TakenIs(r.verdicts, s.attempts, |frames|, |frames|);
      assert frames[..|frames|] == frames;
      var after := StateAfter(w, r, s, id, hop, payload);
      assert after.sent[|s.sent|..] == To(Neighbour(w, r, id.destination), frames);
    }
  }

  // ----- what the sender is told -----

  /** The radio newly took every frame of the message. */
  predicate TookAll(r: Radio, s: RadioState, s': RadioState, id: Identity, hop: u8, payload: bytes) {
    var chunk := FragmentPayloadBytes(r.mtu);
    Sendable(|payload|, chunk) && NewFrames(s, s') == Frames(id, payload, chunk, hop)
  }

  /** The radio of a registered interface. */
  ghost predicate InUse(w: Wiring, r: Radio) {
    exists i | 0 <= i < |w.interfaces| :: w.interfaces[i].radio == r
  }

  /** The states are those of the interfaces, and routes lead through interfaces. */
  ghost predicate Covers(states: map<Radio, RadioState>, w: Wiring) {
    && (forall i | 0 <= i < |w.interfaces| :: w.interfaces[i].radio in states)
    && forall d | d in w.routes :: InUse(w, w.routes[d].radio)
  }

  lemma AcceptedIfTakenAll(r: Radio, s: RadioState, nextHop: RadioAddress, id: Identity, hop: u8, payload: bytes)
    ensures ViaResult(r, s, |payload|).status.Accepted? <==>
            TookAll(r, s, AfterVia(r, s, nextHop, id, hop, payload), id, hop, payload)
  {
    var chunk := FragmentPayloadBytes(r.mtu);
    if Refusal(s.started, r.mtu, |payload|).None? {
      ViaTakes(r, s, nextHop, id, hop, payload);
      var frames := Frames(id, payload, chunk, hop);
      var k := Taken(r.verdicts, s.attempts, |frames|);
      assert k == |frames| ==> frames[..k] == frames;
    } else if Sendable(|payload|, chunk) {
      assert NewFrames(s, s) == [];
    }
  }

  /** A message is reported as accepted exactly if some radio that carries it took all of it. */
  lemma AcceptedIffTaken(w: Wiring, states: map<Radio, RadioState>, id: Identity, hop: u8, payload: bytes)
    requires Covers(states, w)
    ensures FramedResult(w, states, id.destination, |payload|).status.Accepted? <==>
            exists r | r in states && InUse(w, r) && Carries(w, r, id.destination) ::
              TookAll(r, states[r], StatesAfter(w, states, id, hop, payload)[r], id, hop, payload)
  {
    forall r | r in states && Carries(w, r, id.destination)
      ensures ViaResult(r, states[r], |payload|).status.Accepted? <==>
              TookAll(r, states[r], StatesAfter(w, states, id, hop, payload)[r], id, hop, payload)
    {
      AcceptedIfTakenAll(r, states[r], NextHopVia(w, r, id.destination).value, id, hop, payload);
    }
    if id.destination == 0xFFFF {
      BroadcastAccepted(w.interfaces, states, |payload|);
      BroadcastUses(w, states, |payload|);
    } else if id.destination in w.routes {
      assert InUse(w, w.routes[id.destination].radio) && Carries(w, w.routes[id.destination].radio, id.destination);
    } else if DefaultRadio(w.interfaces).Some? {
      var r := DefaultRadio(w.interfaces).value;
      var i :| 0 <= i < |w.interfaces| && r == w.interfaces[i].radio;
      assert InUse(w, r) && Carries(w, r, id.destination);
    }
  }

  /** A broadcast looks at the interfaces; the radio of a route is one of them. */
  lemma BroadcastUses(w: Wiring, states: map<Radio, RadioState>, n: nat)
    requires Covers(states, w)
    ensures (exists i | 0 <= i < |w.interfaces| ::
               w.interfaces[i].radio.broadcast && ResultVia(states, w.interfaces[i].radio, n).status.Accepted?) <==>
            exists r | r in states && InUse(w, r) && r.broadcast :: ViaResult(r, states[r], n).status.Accepted?
  {
    forall i | 0 <= i < |w.interfaces| ensures InUse(w, w.interfaces[i].radio) {
    }
  }

  /**
    Of a message for one node the sender is told the verdict on the last frame that its radio was called with, or why it
    was not called at all.
   */
  lemma RoutedTells(w: Wiring, states: map<Radio, RadioState>, r: Radio, id: Identity, hop: u8, payload: bytes)
    requires id.destination != 0xFFFF && Leads(w, r, id.destination) && r in states
    ensures var result := FramedResult(w, states, id.destination, |payload|);
            var before, after := states[r].attempts, StateAfter(w, r, states[r], id, hop, payload).attempts;
            if before < after then
              && result.link == r.verdicts(after - 1)
              && result.status == if result.link.Accepted? then SendStatus.Accepted else RadioRejected
            else if !states[r].started then result == SendResult(InterfaceUnavailable, NotStarted)
            else if r.mtu <= 15 then result == SendResult(InterfaceUnavailable, Unsupported)
            else result == SendResult(MessageTooLarge, NativeFailure)
  {
    ViaOutcome(r, states[r], Neighbour(w, r, id.destination), id, hop, payload);
    BroadcastAddressIs(r.addressBytes);
  }

  // ----- a stopped node -----

  /** What makes a node use its radios: a packet whose outcome it disposes of, or a Send of its own. */
  datatype Cause = Disposing(out: Outcome) | Sending(id: Identity, hop: u8, payload: bytes)

  ghost function AfterCauses(w: Wiring, states: map<Radio, RadioState>, local: u16, causes: seq<Cause>):
    map<Radio, RadioState>
  {
    if causes == [] then states
    else
      var before := AfterCauses(w, states, local, causes[..|causes| - 1]);
      match causes[|causes| - 1]
      case Disposing(out) => RadiosAfter(w, before, Dispose(local, out))
      case Sending(id, hop, payload) => StatesAfter(w, before, id, hop, payload)
  }

  lemma StoppedRadioIdles(w: Wiring, r: Radio, s: RadioState, id: Identity, hop: u8, payload: bytes)
    requires !s.started
    ensures StateAfter(w, r, s, id, hop, payload) == s
  {
    if NextHopVia(w, r, id.destination).Some? {
      ViaOutcome(r, s, NextHopVia(w, r, id.destination).value, id, hop, payload);
    }
  }

  lemma StoppedRadiosIdle(w: Wiring, states: map<Radio, RadioState>, id: Identity, hop: u8, payload: bytes)
    requires forall r | r in states :: !states[r].started
    ensures StatesAfter(w, states, id, hop, payload) == states
  {
    forall r | r in states ensures StateAfter(w, r, states[r], id, hop, payload) == states[r] {
      StoppedRadioIdles(w, r, states[r], id, hop, payload);
    }
  }

  /** Once a node's radios are stopped, no packet and no Send makes any of them try or take a frame. */
  lemma {:induction false} StoppedStaysSilent(w: Wiring, states: map<Radio, RadioState>, local: u16, causes: seq<Cause>)
    requires forall r | r in states :: !states[r].started
    ensures AfterCauses(w, states, local, causes) == states
  {
    if causes == [] {
    } else {
      var last := |causes| - 1;
      StoppedStaysSilent(w, states, local, causes[..last]);
      match causes[last]
      case Disposing(out) =>
        var d := Dispose(local, out);
        if d.Forward? {
          StoppedRadiosIdle(w, states, d.message.id, d.hop, d.message.payload);
        }
      case Sending(id, hop, payload) => StoppedRadiosIdle(w, states, id, hop, payload);
    }
  }

  /** And a Send is told so, unless it has nowhere to go. */
  lemma StoppedRefuses(w: Wiring, states: map<Radio, RadioState>, destination: u16, n: nat)
    requires forall r | r in states :: !states[r].started
    ensures FramedResult(w, states, destination, n) in
              {SendResult(InterfaceUnavailable, NotStarted), SendResult(NoRoute, NativeFailure)}
    ensures FramedResult(w, states, destination, n).status.NoRoute? <==>
              if destination == 0xFFFF then forall i | 0 <= i < |w.interfaces| :: !w.interfaces[i].radio.broadcast
              else destination !in w.routes && forall i | 0 <= i < |w.interfaces| :: !w.interfaces[i].defaultRoute
  {
    if destination == 0xFFFF {
      BroadcastAccepted(w.interfaces, states, n);
      StoppedBroadcast(w.interfaces, states, n);
    }
  }

  lemma {:induction false} StoppedBroadcast(interfaces: seq<Interface>, states: map<Radio, RadioState>, n: nat)
    requires forall r | r in states :: !states[r].started
    ensures BroadcastResult(interfaces, states, n) in
              {SendResult(InterfaceUnavailable, NotStarted), SendResult(NoRoute, NativeFailure)}
  {
    if interfaces != [] {
      StoppedBroadcast(interfaces[..|interfaces| - 1], states, n);
    }
  }

  // ----- what a forwarding node puts on one link over a whole run -----

  /** The states of a node's radios once it has disposed of everything a run completed. */
  ghost function RadiosAlong(w: Wiring, before: map<Radio, RadioState>, local: u16, outs: seq<Outcome>):
    map<Radio, RadioState>
  {
    if outs == [] then before
    else RadiosAfter(w, RadiosAlong(w, before, local, outs[..|outs| - 1]), Dispose(local, outs[|outs| - 1]))
  }

  /** Every message passed on leaves through `r`. */
  ghost predicate AllVia(w: Wiring, r: Radio, local: u16, outs: seq<Outcome>) {
    forall i | 0 <= i < |outs| && Dispose(local, outs[i]).Forward? :: Leads(w, r, outs[i].message.id.destination)
  }

  /** The transmissions of the messages a node passes on, each to its own next hop. */
  ghost function OnwardTransmissions(w: Wiring, r: Radio, disposals: seq<Disposal>): seq<Transmission> {
    if disposals == [] then []
    else
      var last, chunk := |disposals| - 1, FragmentPayloadBytes(r.mtu);
      var d := disposals[last];
      OnwardTransmissions(w, r, disposals[..last]) +
        if d.Forward? && Sendable(|d.message.payload|, chunk)
        then To(Neighbour(w, r, d.message.id.destination), Frames(d.message.id, d.message.payload, chunk, d.hop))
        else []
  }

  lemma NewTransmissionsJoin(s0: RadioState, s1: RadioState, s2: RadioState)
    requires s0.sent <= s1.sent <= s2.sent
    ensures s0.sent <= s2.sent && NewTransmissions(s0, s2) == NewTransmissions(s0, s1) + NewTransmissions(s1, s2)
  {
  }

  lemma OnwardOfMore(w: Wiring, r: Radio, earlier: seq<Disposal>, d: Disposal)
    ensures OnwardTransmissions(w, r, earlier + [d]) ==
            OnwardTransmissions(w, r, earlier) + OnwardTransmissions(w, r, [d])
  {
    var one, all := [d], earlier + [d];
    assert one[..0] == [] && all[..|earlier|] == earlier;
  }

  lemma OnwardOfOne(w: Wiring, r: Radio, d: Disposal)
    ensures var chunk := FragmentPayloadBytes(r.mtu);
            OnwardTransmissions(w, r, [d]) ==
              if d.Forward? && Sendable(|d.message.payload|, chunk)
              then To(Neighbour(w, r, d.message.id.destination), Frames(d.message.id, d.message.payload, chunk, d.hop))
              else []
  {
    var one := [d];
    assert one[..0] == [];
  }

  lemma OnwardAppend(w: Wiring, r: Radio, local: u16, outs: seq<Outcome>)
    requires outs != []
    ensures var last := |outs| - 1;
            OnwardTransmissions(w, r, Relay.Disposals(local, outs)) ==
              OnwardTransmissions(w, r, Relay.Disposals(local, outs[..last])) +
              OnwardTransmissions(w, r, [Dispose(local, outs[last])])
  {
    var d, earlier := Dispose(local, outs[|outs| - 1]), Relay.Disposals(local, outs[..|outs| - 1]);
    if d.Discard? {
      assert Relay.Disposals(local, outs) == earlier;
      OnwardOfOne(w, r, d);
    } else {
      OnwardOfMore(w, r, earlier, d);
    }
  }

  lemma LinkCarriesNext(w: Wiring, before: map<Radio, RadioState>, r: Radio, d: Disposal)
    requires r in before && before[r].started && AcceptsAll(r)
    requires d.Forward? ==> Leads(w, r, d.message.id.destination) && d.message.id.destination != BROADCAST_NODE
    ensures var after := RadiosAfter(w, before, d);
            && r in after && after[r].started && before[r].sent <= after[r].sent
            && NewTransmissions(before[r], after[r]) == OnwardTransmissions(w, r, [d])
  {
    OnwardOfOne(w, r, d);
    if d.Forward? {
      AllTransmitted(w, r, before[r], d.message.id, d.hop, d.message.payload);
    }
  }

  /**
    Over a whole run, a forwarder's link carries exactly the frames of the messages it passes on, in order, each to the
    next hop of its route.
   */
  lemma {:induction false} LinkCarriesOnwards(w: Wiring, before: map<Radio, RadioState>, r: Radio, local: u16,
                                              outs: seq<Outcome>)
    requires r in before && before[r].started && AcceptsAll(r) && AllVia(w, r, local, outs)
    ensures var after := RadiosAlong(w, before, local, outs);
            && r in after && after[r].started && before[r].sent <= after[r].sent
            && NewTransmissions(before[r], after[r]) == OnwardTransmissions(w, r, Relay.Disposals(local, outs))
  {
    if outs == [] {
    } else {
      var last := |outs| - 1;
      var between, d := RadiosAlong(w, before, local, outs[..last]), Dispose(local, outs[last]);
      LinkCarriesOnwards(w, before, r, local, outs[..last]);
      LinkCarriesNext(w, between, r, d);
      NewTransmissionsJoin(before[r], between[r], RadiosAfter(w, between, d)[r]);
      OnwardAppend(w, r, local, outs);
    }
  }

  lemma FramesOfMore(ts: seq<Transmission>, nextHop: RadioAddress, frames: seq<bytes>)
    ensures FramesOf(ts + To(nextHop, frames)) == FramesOf(ts) + frames
  {
  }

  /** Its frames are those that the chain of nodes passes on. */
  lemma {:induction false} OnwardFrames(w: Wiring, r: Radio, disposals: seq<Disposal>)
    ensures FramesOf(OnwardTransmissions(w, r, disposals)) == Relay.Onwards(disposals, FragmentPayloadBytes(r.mtu))
  {
    if disposals == [] {
    } else {
      var last := |disposals| - 1;
      var d, chunk := disposals[last], FragmentPayloadBytes(r.mtu);
      OnwardFrames(w, r, disposals[..last]);
      if d.Forward? && Sendable(|d.message.payload|, chunk) {
        FramesOfMore(OnwardTransmissions(w, r, disposals[..last]), Neighbour(w, r, d.message.id.destination),
                     Frames(d.message.id, d.message.payload, chunk, d.hop));
      }
    }
  }
}
