/** One exchange between a client and a reference, from the request to the sample, and what keeps a packet out of it. */
module ClockExchange {
  import opened RadioTypes
  import opened Radios
  import opened ClockWire
  import opened ClockSteps
  import opened ClockSynchronizers

  /** An address of 1 to 8 bytes. */
  predicate Known(a: RadioAddress) {
    1 <= |a| <= 8
  }

  // ----- the request -----

  /**
    A client sends a request exactly if it is initialized on a started radio, is one, and knows both addresses. The
    request goes to the reference and asks for the answer at the client's own address.
   */
  lemma RequestLeaves(s: ClockState, link: Link, started: bool, t1: u64)
    ensures var out := RequestOut(s, link, started, t1);
            && (out.Some? <==>
                  && s.initialized && started && (s.config.mode == Client || s.config.mode == ClientAndReference)
                  && Known(s.config.referencePeer) && Known(link.localAddress))
            && (out.Some? ==>
                  && out.value.nextHop == s.config.referencePeer
                  && |out.value.frame| == 25
                  && Read(out.value.frame) ==
                     Some(Request(if s.nextSequence == 0 then 1 else s.nextSequence, t1, link.localAddress)))
  {
    if RequestOut(s, link, started, t1).Some? {
      ReadWritten(Request(SequenceFrom(s.nextSequence), t1, link.localAddress));
    }
  }

  /** The status of a request that is not sent. */
  lemma RequestRefused(s: ClockState, link: Link, started: bool)
    ensures RequestRefusal(s, link, started).None? <==> RequestOut(s, link, started, 0).Some?
    ensures RequestRefusal(s, link, started).Some? ==>
              RequestRefusal(s, link, started).value == if s.initialized && started then InvalidAddress else NotStarted
  {
  }

  /**
    A request that gets as far as the radio is tried once. It is on the air, pending and counted as sent exactly if the
    radio takes it; otherwise nothing is on the air or pending, and it is counted as a failure.
   */
  lemma PendingIffOnAir(s: ClockState, radio: Radio, before: RadioState, t1: u64, stamp: u64)
    requires RequestRefusal(s, LinkOf(radio), before.started).None?
    ensures var link, taken := LinkOf(radio), radio.verdicts(before.attempts).Accepted?;
            var air := AfterSend(radio, before, RequestOut(s, link, before.started, t1));
            var after := AfterSynchronization(s, link, before.started, stamp, WillTake(radio, before.attempts));
            && air.attempts == before.attempts + 1
            && (!taken ==> air.sent == before.sent && after.pending == 0)
            && (taken ==>
                  && |air.sent| == |before.sent| + 1 && before.sent <= air.sent
                  && var out := air.sent[|before.sent|];
                     && out.nextHop == s.config.referencePeer
                     && after.pending != 0
                     && Read(out.frame) == Some(Request(after.pending, t1, radio.localAddress)))
            && after.stats.requestsSent == CountIf(taken, s.stats.requestsSent)
            && after.stats.sendFailures == CountIf(!taken, s.stats.sendFailures)
  {
    RequestLeaves(s, LinkOf(radio), before.started, t1);
  }

  function CountIf(counted: bool, x: u64): u64 {
    if counted then (x + 1) % 0x1_0000_0000_0000_0000 else x
  }

  // ----- which packets are answered, and which make a sample -----

  /** The packet is one the synchronizer listens to, and stamped if it has to be. */
  predicate Heard(s: ClockState, sameRadio: bool, packet: Packet) {
    s.initialized && sameRadio && (s.config.requireReceiveTimestamp ==> packet.receiveTimestamp != 0)
  }

  /**
    Exactly the requests in order are answered, by a reference, on the radio it listens to: those whose sender, if the
    radio knows it, is who the request says, and whose address fits the link.
   */
  lemma AnsweredIff(s: ClockState, link: Link, sameRadio: bool, packet: Packet, t2: u64, t3: u64)
    ensures var out, m := PacketOut(s, link, sameRadio, packet, t2, t3), Read(packet.data);
            && (out.Some? <==>
                  && Heard(s, sameRadio, packet) && m.Some? && m.value.Request?
                  && (s.config.mode == Reference || s.config.mode == ClientAndReference)
                  && (Known(packet.source) ==> packet.source == m.value.address)
                  && (link.addressBytes != 0 ==> |m.value.address| == link.addressBytes))
            && (out.Some? ==>
                  && out.value.nextHop == m.value.address
                  && Read(out.value.frame) == Some(Response(m.value.sequence, m.value.t1, t2, t3)))
  {
    if PacketOut(s, link, sameRadio, packet, t2, t3).Some? {
      ReadWritten(Response(Read(packet.data).value.sequence, Read(packet.data).value.t1, t2, t3));
    }
  }

  /** An answer is tried once, and is on the air and counted as sent exactly if the radio takes it. */
  lemma AnswerOnAir(s: ClockState, radio: Radio, before: RadioState, sameRadio: bool, packet: Packet, t2: u64, t3: u64)
    ensures var link, out := LinkOf(radio), PacketOut(s, LinkOf(radio), sameRadio, packet, t2, t3);
            var air, taken := AfterSend(radio, before, out), radio.verdicts(before.attempts).Accepted?;
            var after := AfterPacket(s, link, sameRadio, packet, t2, taken);
            && air.attempts == before.attempts + (if out.Some? then 1 else 0)
            && (out.Some? && radio.addressBytes != 0 ==> |out.value.nextHop| == radio.addressBytes)
            && air.sent == before.sent + (if out.Some? && taken then [out.value] else [])
            && after.stats.responsesSent == CountIf(out.Some? && taken, s.stats.responsesSent)
            && after.stats.sendFailures == CountIf(out.Some? && !taken, s.stats.sendFailures)
  {
  }

  /** The response that a client waits for, from whom it waits for it, as far as that is known. */
  predicate Expected(s: ClockState, packet: Packet) {
    && Read(packet.data).Some? && Read(packet.data).value.Response?
    && (s.config.mode == Client || s.config.mode == ClientAndReference)
    && Read(packet.data).value.sequence == s.pending
    && (Known(packet.source) && Known(s.config.referencePeer) ==> packet.source == s.config.referencePeer)
  }

  /**
    A packet makes a sample exactly if it is the expected response; it then clears the pending request and its three
    timestamps are those of the sample. Any other packet leaves the pending request and the samples alone.
   */
  lemma SampledIff(s: ClockState, link: Link, sameRadio: bool, packet: Packet, t4: u64, good: bool)
    ensures var after := AfterPacket(s, link, sameRadio, packet, t4, good);
            if Heard(s, sameRadio, packet) && Expected(s, packet) then
              var m := Read(packet.data).value;
              after.pending == 0 && after.samples == s.samples + [Sample(m.t1, m.t2, m.t3, t4)]
            else after.pending == s.pending && after.samples == s.samples
  {
  }

  /** In particular a response from another source than the reference is ignored. */
  lemma ForeignResponseIgnored(s: ClockState, link: Link, sameRadio: bool, packet: Packet, t4: u64, good: bool)
    requires Known(packet.source) && Known(s.config.referencePeer) && packet.source != s.config.referencePeer
    ensures var after := AfterPacket(s, link, sameRadio, packet, t4, good);
            after.pending == s.pending && after.samples == s.samples
  {
    SampledIff(s, link, sameRadio, packet, t4, good);
  }

  /** A packet from another radio, or at a synchronizer that is not initialized, changes nothing and is not answered. */
  lemma DeafToOthers(s: ClockState, link: Link, sameRadio: bool, packet: Packet, t2: u64, t3: u64, good: bool)
    requires !s.initialized || !sameRadio
    ensures AfterPacket(s, link, sameRadio, packet, t2, good) == s
    ensures PacketOut(s, link, sameRadio, packet, t2, t3).None?
  {
  }

  /** Exactly the answers and samples timed without a receive timestamp are counted as fallbacks. */
  lemma FallbackCountedIff(s: ClockState, link: Link, sameRadio: bool, packet: Packet, t2: u64, t3: u64, good: bool)
    ensures var before, after := s.stats.timestampFallbacks, AfterPacket(s, link, sameRadio, packet, t2, good).stats;
            var timed :=
              || PacketOut(s, link, sameRadio, packet, t2, t3).Some?
              || (Heard(s, sameRadio, packet) && Expected(s, packet));
            after.timestampFallbacks == CountIf(timed && packet.receiveTimestamp == 0, before)
  {
  }

  // ----- the round trip -----

  /** The radio does not know the packet's sender, or knows the right one. */
  predicate SentBy(packet: Packet, address: RadioAddress) {
    !Known(packet.source) || packet.source == address
  }

  /** A reference that the client's link can reach. */
  predicate CanAnswer(reference: ClockState, link: Link, client: Link) {
    && reference.initialized && (reference.config.mode == Reference || reference.config.mode == ClientAndReference)
    && (link.addressBytes == 0 || |client.localAddress| == link.addressBytes)
  }

  /** The request reaches the reference, which answers it at the client's address. */
  lemma RequestAnswered(s: ClockState, link: Link, started: bool, t1: u64,
                        reference: ClockState, there: Link, request: Packet, t2: u64, t3: u64)
    requires RequestOut(s, link, started, t1).Some? && CanAnswer(reference, there, link)
    requires request.data == RequestOut(s, link, started, t1).value.frame && SentBy(request, link.localAddress)
    requires reference.config.requireReceiveTimestamp ==> request.receiveTimestamp != 0
    ensures var answer := PacketOut(reference, there, true, request, t2, t3);
            && answer.Some? && answer.value.nextHop == link.localAddress
            && Read(answer.value.frame) == Some(Response(SequenceFrom(s.nextSequence), t1, t2, t3))
  {
    RequestLeaves(s, link, started, t1);
    AnsweredIff(reference, there, true, request, t2, t3);
  }

  /**
    The whole exchange: the request of a client whose radio takes it, answered by a reference, comes back to the
    client's address and makes the sample of the four timestamps; nothing is pending then.
   */
  lemma RoundTrip(s: ClockState, link: Link, started: bool, t1: u64, stamp: u64,
                  reference: ClockState, there: Link, request: Packet, t2: u64, t3: u64,
                  response: Packet, t4: u64, good: bool)
    requires RequestOut(s, link, started, t1).Some? && CanAnswer(reference, there, link)
    requires request.data == RequestOut(s, link, started, t1).value.frame && SentBy(request, link.localAddress)
    requires reference.config.requireReceiveTimestamp ==> request.receiveTimestamp != 0
    requires var answer := PacketOut(reference, there, true, request, t2, t3);
             answer.Some? ==> response.data == answer.value.frame
    requires SentBy(response, s.config.referencePeer)
    requires s.config.requireReceiveTimestamp ==> response.receiveTimestamp != 0
    ensures var asked := AfterSynchronization(s, link, started, stamp, true);
            var after := AfterPacket(asked, link, true, response, t4, good);
            && RequestOut(s, link, started, t1).value.nextHop == s.config.referencePeer
            && PacketOut(reference, there, true, request, t2, t3).Some?
            && PacketOut(reference, there, true, request, t2, t3).value.nextHop == link.localAddress
            && asked.pending != 0 && after.pending == 0
            && after.samples == s.samples + [Sample(t1, t2, t3, t4)]
  {
    RequestLeaves(s, link, started, t1);
    RequestAnswered(s, link, started, t1, reference, there, request, t2, t3);
    SampledIff(AfterSynchronization(s, link, started, stamp, true), link, true, response, t4, good);
  }

  // ----- initialization and shutdown -----

  /**
    Exactly which configurations a synchronizer starts with. Initializing always abandons what is pending; a
    configuration that is in order is stored even if the radio does not let the synchronizer observe its packets.
   */
  lemma InitializedIff(s: ClockState, link: Link, config: Config, subscribed: bool)
    ensures var after := AfterInitialize(s, link, config, subscribed);
            var inOrder :=
              && 32 <= link.mtu && (config.requireReceiveTimestamp ==> link.receiveTimestamps)
              && (config.mode == Client || config.mode == ClientAndReference ==>
                    && Known(config.referencePeer) && Known(link.localAddress)
                    && (link.addressBytes != 0 ==>
                          |config.referencePeer| == |link.localAddress| == link.addressBytes));
            && (after.initialized <==> inOrder && subscribed)
            && after.config == (if inOrder then config else s.config)
            && after.pending == 0 && after.lastRequest == 0 && after.nextSequence == s.nextSequence
            && after.samples == s.samples && after.stats == s.stats
  {
  }

  /** A client that starts on a started radio can send: a request leaves, and it fits the link. */
  lemma StartedClientCanAsk(s: ClockState, link: Link, config: Config, t1: u64)
    requires AfterInitialize(s, link, config, true).initialized && IsClientMode(config.mode)
    ensures var out := RequestOut(AfterInitialize(s, link, config, true), link, true, t1);
            out.Some? && |out.value.frame| <= link.mtu
  {
    InitializedIff(s, link, config, true);
    RequestLeaves(AfterInitialize(s, link, config, true), link, true, t1);
  }

  /** From Shutdown until the next Initialize nothing changes but the counters, and nothing is sent. */
  lemma {:induction false} DownUntilInitialized(s: ClockState, link: Link, events: seq<ClockEvent>)
    requires forall e | e in events :: !e.InitializeCall?
    ensures var down := Next(s, link, ShutdownCall);
            var after := After(down, link, events);
            && !after.initialized && after.pending == 0 && after.lastRequest == 0
            && after.nextSequence == s.nextSequence && after.samples == s.samples && after.config == s.config
            && forall started, t1 :: RequestOut(after, link, started, t1).None?
  {
    if events != [] {
      var last := |events| - 1;
      assert events[last] in events;
      DownUntilInitialized(s, link, events[..last]);
      DownStep(After(Next(s, link, ShutdownCall), link, events[..last]), link, events[last]);
    }
  }

  lemma DownStep(s: ClockState, link: Link, e: ClockEvent)
    requires !s.initialized && s.pending == 0 && s.lastRequest == 0 && !e.InitializeCall?
    ensures Next(s, link, e) == s.(stats := Next(s, link, e).stats)
  {
  }
}
