/** Which messages can be delivered at all, and how often one is. */
module Deliverability {
  import opened RadioTypes
  import opened Fragmentation
  import opened TransportWire
  import opened RecentRing
  import opened Reassembly
  import opened ReassemblyRuns
  import opened Bookkeeping
  import opened Delivery

  // ----- exactly once -----

  /** The first moment at which nothing is missing. */
  lemma {:induction false} FirstCovered(arrivals: seq<Option<nat>>, count: nat, hi: nat) returns (k: nat)
    requires 0 < count && hi <= |arrivals| && Covered(arrivals, count, hi)
    ensures k < hi && !Covered(arrivals, count, k) && Covered(arrivals, count, k + 1)
    ensures forall j: nat | j <= k :: !Covered(arrivals, count, j)
  {
    if hi == 0 {
      assert 0 !in IndicesIn(arrivals, 0);
    } else if Covered(arrivals, count, hi - 1) {
      k := FirstCovered(arrivals, count, hi - 1);
    } else {
      k := hi - 1;
      forall j: nat | j <= k ensures !Covered(arrivals, count, j) {
        ArrivedGrows(arrivals, j, k);
      }
    }
  }

  lemma {:induction false} ArrivedGrows(arrivals: seq<Option<nat>>, lo: nat, hi: nat)
    requires lo <= hi <= |arrivals|
    ensures IndicesIn(arrivals, lo) <= IndicesIn(arrivals, hi)
    decreases hi
  {
    if lo < hi {
      ArrivedGrows(arrivals, lo, hi - 1);
    }
  }

  /** The message completes at `k`, with its payload, and at no other packet of the run. */
  ghost predicate OnceAt(r: Run, s: Shipment, k: nat) {
    && k < |r.outs| && r.CompletesAt(k, s.id)
    && r.outs[k].message == Message(s.id, s.payload) && r.outs[k].hop in s.hops
    && forall j: nat :: j < |r.outs| && r.CompletesAt(j, s.id) ==> j == k
  }

  /** From the completion on, a message's own frames are dropped as recent and change nothing. */
  lemma {:induction false} OwnFramesAreDropped(r: Run, id: Identity, k: nat, j: nat)
    requires r.Steps() && NoStops(r) && Alone(r.events, id) && k < j < |r.events| && r.CompletesAt(k, id)
    ensures Recent(r.tables[j], id) && r.tables[j + 1] == r.tables[j] == r.tables[k + 1] && r.outs[j] == Nothing
  {
    if j == k + 1 {
      LogRecordsCompletion(r, k, id);
      RingAppend(r.tables[k].completed, id, MAX_RECENT_MESSAGES, SIZE_MODULUS);
      WrittenIsRecent(r.tables[k].completed, id, r.tables[j]);
    } else {
      OwnFramesAreDropped(r, id, k, j - 1);
    }
    assert r.events[j].Packet?;
    RecentPacket(r.tables[j], r.local, r.events[j].data, r.tables[j + 1], r.outs[j], id);
  }

  lemma WrittenIsRecent(log: seq<Identity>, id: Identity, t: Table)
    requires t.completed == log + [id]
    ensures Recent(t, id)
  {
    RingAppend(log, id, MAX_RECENT_MESSAGES, SIZE_MODULUS);
    var ring := RingAfter(log + [id], MAX_RECENT_MESSAGES, SIZE_MODULUS);
    assert ring[|log| % SIZE_MODULUS % MAX_RECENT_MESSAGES] == Some(id);
  }

  lemma RecentPacket(t: Table, local: u16, data: bytes, t': Table, out: Outcome, id: Identity)
    requires Valid(t) && Arrival(t, local, data, t', out) && Recent(t, id)
    requires Subject(Packet(data)).None? || Subject(Packet(data)) == Some(id)
    ensures t' == t && out == Nothing
  {
  }

  /**
    Once all fragments have arrived, the message was completed exactly once: without any condition if no other frames
    arrived, and otherwise as long as the ring cannot have forgotten it.
   */
  lemma CompletesExactlyOnce(r: Run, s: Shipment) returns (k: nat)
    requires Delivering(r, s) && Covered(Arrivals(r.events, s.id), s.Count(), |r.events|)
    requires Alone(r.events, s.id) || Remembering(r)
    ensures OnceAt(r, s, k)
    ensures !Covered(Arrivals(r.events, s.id), s.Count(), k) && Covered(Arrivals(r.events, s.id), s.Count(), k + 1)
  {
    k := FirstCovered(Arrivals(r.events, s.id), s.Count(), |r.events|);
    CompletesExactlyWhenCovered(r, s, k);
    CompletesWithPayload(r, s, k);
    forall j: nat | j < |r.outs| && r.CompletesAt(j, s.id) ensures j == k {
      if j < k {
        CompletesExactlyWhenCovered(r, s, j);
      } else if k < j && Alone(r.events, s.id) {
        OwnFramesAreDropped(r, s.id, k, j);
      } else if k < j {
        NoSecondCompletion(r, s.id, k, j);
      }
    }
  }

  /** No more messages complete in the run than the ring holds, and its cursor does not break step. */
  ghost predicate Remembering(r: Run)
    requires r.Steps()
  {
    var log := r.tables[|r.events|].completed;
    |log| - |r.tables[0].completed| <= MAX_RECENT_MESSAGES && CursorSound(|log|, MAX_RECENT_MESSAGES, SIZE_MODULUS)
  }

  lemma NoSecondCompletion(r: Run, id: Identity, k: nat, j: nat)
    requires r.Steps() && k < j < |r.events| && r.CompletesAt(k, id) && Remembering(r)
    ensures !r.CompletesAt(j, id)
  {
    CompletedGrows(r, 0, k);
    CompletedGrows(r, j, |r.events|);
    CompletedGrows(r, j + 1, |r.events|);
    if r.CompletesAt(j, id) {
      AtMostOnceInWindow(r, k, j, id);
    }
  }

  // ----- too large to store -----

  lemma OversizePacket(t: Table, local: u16, data: bytes, victim: Identity, s: Shipment)
    requires Valid(t) && MayEvict(t, victim) && s.id !in t.assemblies
    requires s.Wellformed() && !Storable(|s.payload|, s.chunk)
    requires Subject(Packet(data)) == Some(s.id) ==> s.Carries(Parse(data).value)
    ensures var (t', out) := Receive(t, local, data, victim);
            s.id !in t'.assemblies && !Completes(out, s.id)
  {
    var r := Parse(data);
    if r.Some? && Admits(t, local, r.value) {
      if r.value.id == s.id {
        KeptHasRoom(t, s.id, victim);
      } else {
        AcceptFrame(t, r.value, victim, s.id);
        BystanderKeepsRecent(t, local, data, victim, s.id);
      }
    }
  }

  /** A message the sender lets through but the receiver cannot store never completes, whatever arrives and when. */
  lemma {:induction false} OversizeNeverCompletes(r: Run, s: Shipment, i: nat)
    requires r.Steps() && OnlyGenuine(r.events, s) && s.id !in r.tables[0].assemblies
    requires s.Wellformed() && !Storable(|s.payload|, s.chunk) && i <= |r.events|
    ensures s.id !in r.tables[i].assemblies
    ensures i < |r.events| ==> !r.CompletesAt(i, s.id)
  {
    if i != 0 {
      OversizeNeverCompletes(r, s, i - 1);
      OversizeStep(r.tables[i - 1], r.local, r.events[i - 1], r.tables[i], r.outs[i - 1], s);
    }
    if i < |r.events| {
      OversizeStep(r.tables[i], r.local, r.events[i], r.tables[i + 1], r.outs[i], s);
    }
  }

  lemma OversizeStep(t: Table, local: u16, e: Event, t': Table, out: Outcome, s: Shipment)
    requires Step(t, local, e, t', out) && s.id !in t.assemblies
    requires s.Wellformed() && !Storable(|s.payload|, s.chunk)
    requires Subject(e) == Some(s.id) ==> s.Carries(Parse(e.data).value)
    ensures s.id !in t'.assemblies && !Completes(out, s.id)
  {
    match e
    case Stop =>
    case Packet(data) =>
      var victim :| MayEvict(t, victim) && Receive(t, local, data, victim) == (t', out);
      OversizePacket(t, local, data, victim, s);
  }

  // ----- a run for every sequence of packets -----

  /** The packets a node is fed, as a run. */
  ghost predicate Feeds(r: Run, local: u16, t: Table, frames: seq<bytes>) {
    r.Steps() && Fed(r, local, t, frames)
  }

  /** What goes into a run. */
  ghost predicate Fed(r: Run, local: u16, t: Table, frames: seq<bytes>) {
    && r.local == local && r.tables != [] && r.tables[0] == t
    && |r.events| == |frames| && forall i :: 0 <= i < |frames| ==> r.events[i] == Packet(frames[i])
  }

  lemma {:induction false} RunExists(local: u16, t: Table, frames: seq<bytes>) returns (r: Run)
    requires Valid(t)
    ensures Feeds(r, local, t, frames)
  {
    if frames == [] {
      r := Run(local, [t], [], []);
    } else {
      var last := |frames| - 1;
      var rest := RunExists(local, t, frames[..last]);
      RunKeepsValid(rest, last);
      r := OneMore(rest, frames[last]);
      OneMoreFeeds(rest, r, local, t, frames);
    }
  }

  lemma OneMoreFeeds(rest: Run, r: Run, local: u16, t: Table, frames: seq<bytes>)
    requires frames != [] && Fed(rest, local, t, frames[..|frames| - 1])
    requires r.Steps() && r.local == rest.local && r.tables[0] == rest.tables[0]
    requires r.events == rest.events + [Packet(frames[|frames| - 1])]
    ensures Feeds(r, local, t, frames)
  {
  }

  lemma OneMore(rest: Run, frame: bytes) returns (r: Run)
    requires rest.Steps() && Valid(rest.tables[|rest.events|])
    ensures r.Steps() && r.local == rest.local && r.events == rest.events + [Packet(frame)]
    ensures r.tables[0] == rest.tables[0]
  {
    var t1 := rest.tables[|rest.events|];
    var victim := VictimExists(t1);
    var (t', out) := Receive(t1, rest.local, frame, victim);
    r := Extend(rest, Packet(frame), t', out);
    ExtendedSteps(rest, Packet(frame), t', out);
  }

  function Extend(r: Run, e: Event, t': Table, out: Outcome): Run {
    Run(r.local, r.tables + [t'], r.events + [e], r.outs + [out])
  }

  lemma ExtendedSteps(r: Run, e: Event, t': Table, out: Outcome)
    requires r.Steps() && Step(r.tables[|r.events|], r.local, e, t', out)
    ensures Extend(r, e, t', out).Steps()
  {
    var r', last := Extend(r, e, t', out), |r.events|;
    forall i {:trigger r'.events[i]} | 0 <= i < |r'.events|
      ensures Step(r'.tables[i], r'.local, r'.events[i], r'.tables[i + 1], r'.outs[i])
    {
      if i < last {
        assert r'.events[i] == r.events[i];
      }
    }
  }

  // ----- a fresh node that receives the frames of one message in order -----

  lemma InOrderFrame(r: Run, s: Shipment, hop: u8, t: Table, i: nat)
    requires s.Wellformed() && i < s.Count()
    requires Feeds(r, r.local, t, Frames(s.id, s.payload, s.chunk, hop))
    ensures i < |r.events| && r.events[i].Packet?
    ensures Parse(r.events[i].data) == Some(FragmentAt(s.id, s.payload, s.chunk, hop, i))
  {
    FramesCarryPayload(s.id, s.payload, s.chunk, hop);
    assert r.events[i] == Packet(Frames(s.id, s.payload, s.chunk, hop)[i]);
  }

  lemma {:induction false} InOrderArrived(arrivals: seq<Option<nat>>, hi: nat)
    requires hi <= |arrivals| && forall i | 0 <= i < |arrivals| :: arrivals[i] == Some(i)
    ensures forall k: nat :: k in IndicesIn(arrivals, hi) <==> k < hi
  {
    if hi != 0 {
      InOrderArrived(arrivals, hi - 1);
    }
  }

  ghost predicate Unhindered(local: u16, s: Shipment) {
    && s.Wellformed() && Storable(|s.payload|, s.chunk)
    && s.id.source !in {0, local} && s.id.destination != 0
  }

  lemma InOrderIsDelivering(r: Run, s: Shipment, hop: u8)
    requires Unhindered(r.local, s) && hop in s.hops
    requires Feeds(r, r.local, EMPTY_TABLE, Frames(s.id, s.payload, s.chunk, hop))
    ensures Delivering(r, s) && Alone(r.events, s.id)
    ensures forall i {:trigger r.events[i]} | 0 <= i < |r.events| ::
              Subject(r.events[i]) == Some(s.id) && Arrivals(r.events, s.id)[i] == Some(i)
  {
    forall i {:trigger r.events[i]} | 0 <= i < |r.events|
      ensures Subject(r.events[i]) == Some(s.id) && s.Carries(Parse(r.events[i].data).value)
      ensures Arrivals(r.events, s.id)[i] == Some(i)
    {
      InOrderFrame(r, s, hop, EMPTY_TABLE, i);
    }
  }

  /** A completion is of the message the packet was about. */
  lemma CompletionIsAboutPacket(r: Run, i: nat)
    requires r.Steps() && i < |r.events| && r.outs[i].Completed?
    ensures Subject(r.events[i]) == Some(r.outs[i].message.id)
  {
    var t, e, t', out := r.tables[i], r.events[i], r.tables[i + 1], r.outs[i];
    assert Step(t, r.local, e, t', out);
    var victim :| MayEvict(t, victim) && Receive(t, r.local, e.data, victim) == (t', out);
    if Subject(e) != Some(out.message.id) {
      BystanderKeepsRecent(t, r.local, e.data, victim, out.message.id);
    }
  }

  /** The last frame completes the message; the frames before it complete nothing. */
  lemma InOrderCompletesLast(r: Run, s: Shipment, hop: u8)
    requires Unhindered(r.local, s) && s.hops == {hop}
    requires Feeds(r, r.local, EMPTY_TABLE, Frames(s.id, s.payload, s.chunk, hop))
    ensures |r.outs| == s.Count()
    ensures forall i | 0 <= i < |r.outs| ::
              r.outs[i] == if i == |r.outs| - 1 then Completed(Message(s.id, s.payload), hop) else Nothing
  {
    InOrderIsDelivering(r, s, hop);
    forall i | 0 <= i < |r.outs|
      ensures r.outs[i] == if i == |r.outs| - 1 then Completed(Message(s.id, s.payload), hop) else Nothing
    {
      InOrderCompletes(r, s, i);
      assert Subject(r.events[i]) == Some(s.id);
      InOrderOutcome(r, s, hop, i);
    }
  }

  lemma InOrderCompletes(r: Run, s: Shipment, i: nat)
    requires r.Steps() && s.Wellformed() && i < |r.events| == s.Count()
    requires forall j | 0 <= j < |r.events| :: Arrivals(r.events, s.id)[j] == Some(j)
    ensures Delivering(r, s) ==> (r.CompletesAt(i, s.id) <==> i == s.Count() - 1)
  {
    InOrderCoverage(Arrivals(r.events, s.id), s.Count(), i);
    CoverageDecides(r, s, i);
  }

  lemma InOrderCoverage(arrivals: seq<Option<nat>>, count: nat, i: nat)
    requires i < count == |arrivals| && forall j | 0 <= j < |arrivals| :: arrivals[j] == Some(j)
    ensures !Covered(arrivals, count, i)
    ensures Covered(arrivals, count, i + 1) <==> i == count - 1
  {
    InOrderCovered(arrivals, count, i);
    InOrderCovered(arrivals, count, i + 1);
  }

  lemma CoverageDecides(r: Run, s: Shipment, i: nat)
    requires r.Steps() && s.Wellformed() && i < |r.events|
    ensures Delivering(r, s) && !Covered(Arrivals(r.events, s.id), s.Count(), i) ==>
              (r.CompletesAt(i, s.id) <==> Covered(Arrivals(r.events, s.id), s.Count(), i + 1))
  {
    if Delivering(r, s) && !Covered(Arrivals(r.events, s.id), s.Count(), i) {
      CompletesExactlyWhenCovered(r, s, i);
    }
  }

  lemma InOrderOutcome(r: Run, s: Shipment, hop: u8, i: nat)
    requires Delivering(r, s) && s.hops == {hop} && i < |r.events|
    requires Subject(r.events[i]) == Some(s.id)
    requires r.CompletesAt(i, s.id) <==> i == s.Count() - 1
    ensures r.outs[i] == if i == s.Count() - 1 then Completed(Message(s.id, s.payload), hop) else Nothing
  {
    if r.outs[i].Completed? {
      CompletionIsAboutPacket(r, i);
      CompletesWithPayload(r, s, i);
    }
  }

  lemma InOrderCovered(arrivals: seq<Option<nat>>, count: nat, hi: nat)
    requires hi <= count == |arrivals| && forall i | 0 <= i < |arrivals| :: arrivals[i] == Some(i)
    ensures Covered(arrivals, count, hi) <==> hi == count
  {
    InOrderArrived(arrivals, hi);
    if hi < count {
      assert hi !in IndicesIn(arrivals, hi);
    }
  }

  // ----- exactly which messages can be delivered -----

  ghost predicate CompletesIn(r: Run, local: u16, s: Shipment) {
    && r.Steps() && r.local == local && r.tables[0] == EMPTY_TABLE && OnlyGenuine(r.events, s)
    && exists i: nat :: i < |r.outs| && r.CompletesAt(i, s.id)
  }

  /**
    The sender accepts more than the receiver can hold. From a fresh node, some arrival of its own frames completes
    a message exactly if one chunk is within the receiver's bound and the payload within the whole chunks that are.
   */
  lemma DeliverableIffStorable(local: u16, s: Shipment)
    requires s.Wellformed() && s.hops != {} && s.id.source !in {0, local} && s.id.destination != 0
    ensures s.chunk <= MAX_MESSAGE_BYTES && |s.payload| <= MAX_MESSAGE_BYTES / s.chunk * s.chunk <==>
            exists r: Run :: CompletesIn(r, local, s)
  {
    StorableBound(|s.payload|, s.chunk);
    if Storable(|s.payload|, s.chunk) {
      StorableCompletes(local, s);
    } else {
      forall r: Run | CompletesIn(r, local, s) ensures false {
        var i: nat :| i < |r.outs| && r.CompletesAt(i, s.id);
        OversizeNeverCompletes(r, s, i);
      }
    }
  }

  lemma StorableCompletes(local: u16, s: Shipment)
    requires Unhindered(local, s) && s.hops != {}
    ensures exists r: Run :: CompletesIn(r, local, s)
  {
    var hop :| hop in s.hops;
    EmptyIsValid();
    var r := RunExists(local, EMPTY_TABLE, Frames(s.id, s.payload, s.chunk, hop));
    InOrderCompletesLast(r, s.(hops := {hop}), hop);
    InOrderIsDelivering(r, s, hop);
    assert r.CompletesAt(s.Count() - 1, s.id);
    assert CompletesIn(r, local, s);
  }

  /** With chunks of 17 bytes and room for 4096, a payload of 4096 bytes passes the sender but cannot be stored. */
  lemma SenderAcceptsTooMuch(local: u16, s: Shipment, r: Run)
    requires MAX_MESSAGE_BYTES == 4096 && s.chunk == 17 && |s.payload| == 4096
    requires s.id.source !in {0, local} && s.id.destination != 0 && s.hops != {}
    ensures Sendable(|s.payload|, s.chunk) && !CompletesIn(r, local, s)
  {
    FragmentCountUnique(4096, 17, 241);
    DeliverableIffStorable(local, s);
  }
}
