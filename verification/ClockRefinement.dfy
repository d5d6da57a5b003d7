/**
  The interleaved protocol is made of the synchronizer's own calls: run without interruption, its actions have the
  effect that the specification of the calls gives, and the responses it lets arrive are those a reference sends.
 */
module ClockRefinement {
  import opened RadioTypes
  import opened ClockWire
  import opened ClockSteps
  import opened ClockSynchronizers
  import P = ClockProtocol
  import ClockCounters

  function CellValue(pending: Option<nat>): u32 {
    match pending
    case None => 0
    case Some(ticket) => P.NumberOf(ticket)
  }

  /** The sequence counter after so many fetches. */
  function CounterAfter(fetches: nat): u32 {
    (fetches + 1) % U32_MODULUS
  }

  /** The world shows the state of the synchronizer: counter, cell and statistics, all but the missing timestamps. */
  ghost predicate Shows(w: P.World, s: ClockState) {
    && s.nextSequence == CounterAfter(w.fetches)
    && s.pending == CellValue(w.pending)
    && w.stats == s.stats.(timestampFallbacks := w.stats.timestampFallbacks)
  }

  // ----- a request -----

  /** From the call to the number: two fetches if the first yields 0. */
  function NumberActions(w: P.World, v: nat): seq<P.Action> {
    [P.Begin(v), P.Approve(v), P.Fetch(v)] + if CounterAfter(w.fetches) == 0 then [P.Refetch(v)] else []
  }

  lemma Numbering(w: P.World, v: nat)
    requires P.At(w, v) == P.Idle
    ensures var n := P.After(w, NumberActions(w, v));
            && P.At(n, v) == P.Numbered(n.fetches) && n.pending == w.pending
            && n.fetches == w.fetches + (if CounterAfter(w.fetches) == 0 then 2 else 1)
            && n.stats == w.stats.(requestsAttempted := Count(w.stats.requestsAttempted))
  {
    FirstFetch(w, v);
    P.AfterThree(w, P.Begin(v), P.Approve(v), P.Fetch(v));
    var w1 := P.After(w, [P.Begin(v), P.Approve(v), P.Fetch(v)]);
    if CounterAfter(w.fetches) == 0 {
      P.AfterConcat(w, [P.Begin(v), P.Approve(v), P.Fetch(v)], [P.Refetch(v)]);
      P.AfterOne(w1, P.Refetch(v));
    } else {
      assert NumberActions(w, v) == [P.Begin(v), P.Approve(v), P.Fetch(v)];
    }
  }

  lemma FirstFetch(w: P.World, v: nat)
    requires P.At(w, v) == P.Idle
    ensures var n, ticket := P.Do(P.Do(P.Do(w, P.Begin(v)), P.Approve(v)), P.Fetch(v)), w.fetches + 1;
            && P.At(n, v) == (if ticket % U32_MODULUS == 0 then P.Wrapped(ticket) else P.Numbered(ticket))
            && n.fetches == ticket && n.pending == w.pending
            && n.stats == w.stats.(requestsAttempted := Count(w.stats.requestsAttempted))
  {
    var w2 := P.Do(P.Do(w, P.Begin(v)), P.Approve(v));
    assert P.At(w2, v) == P.Approved && w2.fetches == w.fetches;
  }

  /** The number is the counter's value, skipping 0, and the counter moves on behind it. */
  lemma NumberFacts(fetches: nat, ticket: nat)
    requires ticket == fetches + if CounterAfter(fetches) == 0 then 2 else 1
    ensures P.NumberOf(ticket) == SequenceFrom(CounterAfter(fetches))
    ensures CounterAfter(ticket) == FollowingSequence(CounterAfter(fetches))
  {
    Successor(fetches + 1);
    Successor(fetches + 2);
  }

  lemma Successor(k: nat)
    ensures (k + 1) % U32_MODULUS == (k % U32_MODULUS + 1) % U32_MODULUS
  {
  }

  /** From the number to the outcome. */
  function SendActions(v: nat, t1: u64, taken: bool): seq<P.Action> {
    [P.ReadClock(v, t1), P.Post(v), P.Send(v, taken)] + ((if taken then [] else [P.Retract(v)]) + [P.CountOutcome(v)])
  }

  lemma Sending(w: P.World, v: nat, t1: u64, taken: bool)
    requires P.At(w, v).Numbered?
    ensures var n := P.After(w, SendActions(v, t1, taken));
            && n.fetches == w.fetches && n.pending == (if taken then Some(P.At(w, v).ticket) else None)
            && n.stats == (if taken then w.stats.(requestsSent := Count(w.stats.requestsSent))
                           else w.stats.(sendFailures := Count(w.stats.sendFailures)))
            && P.At(w, v).ticket in n.asked && n.asked[P.At(w, v).ticket] == t1
  {
    var front := [P.ReadClock(v, t1), P.Post(v), P.Send(v, taken)];
    var back: seq<P.Action> := if taken then [] else [P.Retract(v)];
    P.AfterConcat(w, front, back + [P.CountOutcome(v)]);
    P.AfterThree(w, P.ReadClock(v, t1), P.Post(v), P.Send(v, taken));
    HandedOver(w, v, t1, taken);
    Outcome(P.After(w, front), v, taken, back);
  }

  lemma HandedOver(w: P.World, v: nat, t1: u64, taken: bool)
    requires P.At(w, v).Numbered?
    ensures var n, ticket := P.Do(P.Do(P.Do(w, P.ReadClock(v, t1)), P.Post(v)), P.Send(v, taken)), P.At(w, v).ticket;
            && P.At(n, v) == (if taken then P.Taken else P.Refused(ticket))
            && n.fetches == w.fetches && n.pending == Some(ticket) && n.stats == w.stats
            && ticket in n.asked && n.asked[ticket] == t1
  {
    var w2 := P.Do(P.Do(w, P.ReadClock(v, t1)), P.Post(v));
    assert P.At(w2, v) == P.Posted(P.At(w, v).ticket, t1);
  }

  lemma Outcome(w: P.World, v: nat, taken: bool, back: seq<P.Action>)
    requires if taken then P.At(w, v) == P.Taken else P.At(w, v).Refused?
    requires back == if taken then [] else [P.Retract(v)]
    ensures var n := P.After(w, back + [P.CountOutcome(v)]);
            && n.fetches == w.fetches && n.asked == w.asked && n.pending == (if taken then w.pending else None)
            && n.stats == (if taken then w.stats.(requestsSent := Count(w.stats.requestsSent))
                           else w.stats.(sendFailures := Count(w.stats.sendFailures)))
  {
    if taken {
      assert back + [P.CountOutcome(v)] == [P.CountOutcome(v)];
      P.AfterOne(w, P.CountOutcome(v));
    } else {
      P.AfterNext(w, P.Retract(v), [P.CountOutcome(v)]);
      P.AfterOne(P.Do(w, P.Retract(v)), P.CountOutcome(v));
    }
  }

  /** The actions of one call of RequestSynchronization. */
  function RequestActions(w: P.World, v: nat, refused: bool, t1: u64, taken: bool): seq<P.Action> {
    if refused then [P.Begin(v), P.Decline(v), P.CountOutcome(v)]
    else NumberActions(w, v) + SendActions(v, t1, taken)
  }

  /** A request that nothing interrupts does what the specification of the call says. */
  lemma RequestRefines(w: P.World, v: nat, s: ClockState, link: Link, started: bool, t1: u64, stamp: u64, taken: bool)
    requires Shows(w, s) && P.At(w, v) == P.Idle
    ensures var refused := RequestRefusal(s, link, started).Some?;
            Shows(P.After(w, RequestActions(w, v, refused, t1, taken)),
                  AfterSynchronization(s, link, started, stamp, taken))
  {
    if RequestRefusal(s, link, started).Some? {
      P.AfterThree(w, P.Begin(v), P.Decline(v), P.CountOutcome(v));
      Declined(w, v);
    } else {
      Granted(w, v, t1, taken);
    }
  }

  lemma Granted(w: P.World, v: nat, t1: u64, taken: bool)
    requires P.At(w, v) == P.Idle
    ensures var n, before := P.After(w, NumberActions(w, v) + SendActions(v, t1, taken)), CounterAfter(w.fetches);
            && CounterAfter(n.fetches) == FollowingSequence(before)
            && CellValue(n.pending) == (if taken then SequenceFrom(before) else 0)
            && n.stats == CountRequest(w.stats, taken)
  {
    var n := P.After(w, NumberActions(w, v));
    P.AfterConcat(w, NumberActions(w, v), SendActions(v, t1, taken));
    Numbering(w, v);
    Sending(n, v, t1, taken);
    NumberFacts(w.fetches, n.fetches);
  }

  lemma Declined(w: P.World, v: nat)
    requires P.At(w, v) == P.Idle
    ensures P.Do(P.Do(P.Do(w, P.Begin(v)), P.Decline(v)), P.CountOutcome(v))
            == w.(requesters := w.requesters[v := P.Idle], stats := CountRequest(w.stats, false))
  {
    var w2 := P.Do(P.Do(w, P.Begin(v)), P.Decline(v));
    assert w2 == w.(requesters := w.requesters[v := P.Failed],
                    stats := w.stats.(requestsAttempted := Count(w.stats.requestsAttempted)));
    assert w.requesters[v := P.Failed][v := P.Idle] == w.requesters[v := P.Idle];
  }

  // ----- a response -----

  /** The actions of processing a response that gets as far as the pending request. */
  function ResponseActions(w: P.World, origin: nat, good: bool): seq<P.Action> {
    if CellValue(w.pending) != P.NumberOf(origin) then [P.Arrive(origin), P.Load, P.CountIgnored]
    else [P.Arrive(origin), P.Load, P.Clear] + [P.CountResponse, P.Submit(good), P.CountVerdict]
  }

  lemma Matching(w: P.World, origin: nat)
    requires w.receiver == P.Waiting && origin in w.asked && CellValue(w.pending) == P.NumberOf(origin)
    ensures w.pending.Some?
    ensures P.Do(P.Do(P.Do(w, P.Arrive(origin)), P.Load), P.Clear)
            == w.(receiver := P.Cleared(origin, w.asked[origin], w.pending.value), pending := None, seen := w.seen + 1)
  {
    var w2 := P.Do(P.Do(w, P.Arrive(origin)), P.Load);
    assert w2 == w.(receiver := P.Matched(origin, w.asked[origin], w.pending.value), seen := w.seen + 1);
  }

  lemma Accepting(w: P.World, good: bool)
    requires w.receiver.Cleared?
    ensures var r := w.receiver;
            P.Do(P.Do(P.Do(w, P.CountResponse), P.Submit(good)), P.CountVerdict)
            == w.(receiver := P.Waiting, accepted := w.accepted + [P.Acceptance(r.ticket, r.origin, r.t1)],
                  stats := CountSample(w.stats, 1, good))
  {
    var w2 := P.Do(P.Do(w, P.CountResponse), P.Submit(good));
    assert w2.receiver == P.Judged(good);
  }

  lemma Mismatching(w: P.World, origin: nat)
    requires w.receiver == P.Waiting && origin in w.asked && CellValue(w.pending) != P.NumberOf(origin)
    ensures P.Do(P.Do(w, P.Arrive(origin)), P.Load) == w.(receiver := P.Rejecting, seen := w.seen + 1)
  {
  }

  lemma Rejecting(w: P.World)
    requires w.receiver == P.Rejecting
    ensures P.Do(w, P.CountIgnored) == w.(receiver := P.Waiting, stats := CountIgnored(w.stats))
  {
  }

  lemma Ignoring(w: P.World, origin: nat)
    requires w.receiver == P.Waiting && origin in w.asked && CellValue(w.pending) != P.NumberOf(origin)
    ensures P.After(w, [P.Arrive(origin), P.Load, P.CountIgnored])
            == w.(seen := w.seen + 1, stats := CountIgnored(w.stats))
  {
    P.AfterThree(w, P.Arrive(origin), P.Load, P.CountIgnored);
    Mismatching(w, origin);
    Rejecting(w.(receiver := P.Rejecting, seen := w.seen + 1));
  }

  lemma Answering(w: P.World, origin: nat, good: bool)
    requires w.receiver == P.Waiting && origin in w.asked && CellValue(w.pending) == P.NumberOf(origin)
    ensures w.pending.Some?
    ensures P.After(w, ResponseActions(w, origin, good))
            == w.(pending := None, seen := w.seen + 1, stats := CountSample(w.stats, 1, good),
                  accepted := w.accepted + [P.Acceptance(w.pending.value, origin, w.asked[origin])])
  {
    P.AfterConcat(w, [P.Arrive(origin), P.Load, P.Clear], [P.CountResponse, P.Submit(good), P.CountVerdict]);
    P.AfterThree(w, P.Arrive(origin), P.Load, P.Clear);
    Matching(w, origin);
    var w1 := P.After(w, [P.Arrive(origin), P.Load, P.Clear]);
    P.AfterThree(w1, P.CountResponse, P.Submit(good), P.CountVerdict);
    Accepting(w1, good);
  }

  /** The packet is for a client of this configuration, and a response as far as its size and source go. */
  predicate Addressed(config: Config, packet: Packet) {
    && IsClientMode(config.mode) && |packet.data| == RESPONSE_BYTES
    && (IsValidAddress(packet.source) && IsValidAddress(config.referencePeer) ==> packet.source == config.referencePeer)
  }

  /**
    The response that a reference sends to a request of the protocol, processed without interruption, does what the
    specification of the call says, and the sample submitted has the T1 recorded as accepted.
   */
  lemma ResponseRefines(w: P.World, origin: nat, s: ClockState, packet: Packet, t2: u64, t3: u64, t4: u64, good: bool)
    requires Shows(w, s) && w.receiver == P.Waiting && origin in w.asked && Addressed(s.config, packet)
    requires Read(packet.data) == Some(Response(P.NumberOf(origin), w.asked[origin], t2, t3))
    ensures var n, s' := P.After(w, ResponseActions(w, origin, good)),
                         AfterResponse(s, packet, P.NumberOf(origin), t4, good);
            && Shows(n, s')
            && if CellValue(w.pending) != P.NumberOf(origin) then n.accepted == w.accepted && s'.samples == s.samples
               else
                 && n.accepted == w.accepted + [P.Acceptance(w.pending.value, origin, w.asked[origin])]
                 && s'.samples == s.samples + [Sample(w.asked[origin], t2, t3, t4)]
  {
    SampleIs(packet, P.NumberOf(origin), w.asked[origin], t2, t3, t4);
    if CellValue(w.pending) != P.NumberOf(origin) {
      Ignoring(w, origin);
    } else {
      Answering(w, origin, good);
    }
  }

  lemma SampleIs(packet: Packet, sequence: u32, t1: u64, t2: u64, t3: u64, t4: u64)
    requires Read(packet.data) == Some(Response(sequence, t1, t2, t3))
    ensures |packet.data| == RESPONSE_BYTES && SampleOf(packet, t4) == Sample(t1, t2, t3, t4)
  {
  }

  /** Such a response is what a reference answers to the request's own bytes. */
  lemma ResponseIsAnswer(w: P.World, origin: nat, config: Config, link: Link, request: Packet, address: RadioAddress,
                         t2: u64, t3: u64)
    requires origin in w.asked && IsValidAddress(address)
    requires request.data == Written(Request(P.NumberOf(origin), w.asked[origin], address))
    ensures var out := Answer(config, link, request, P.NumberOf(origin), t2, t3);
            out.Some? ==>
              && out.value.nextHop == address
              && Read(out.value.frame) == Some(Response(P.NumberOf(origin), w.asked[origin], t2, t3))
  {
    AnswerEchoesRequest(config, link, request, Request(P.NumberOf(origin), w.asked[origin], address), t2, t3);
  }

  // ----- a packet that is ignored, and a reset -----

  /** A packet that the receiver rejects before it looks at the pending request is counted as ignored. */
  lemma RejectionRefines(w: P.World, s: ClockState)
    requires Shows(w, s) && w.receiver == P.Waiting
    ensures Shows(P.After(w, [P.Reject, P.CountIgnored]), Ignored(s))
  {
    P.AfterNext(w, P.Reject, [P.CountIgnored]);
    P.AfterOne(P.Do(w, P.Reject), P.CountIgnored);
    assert [P.Reject, P.CountIgnored] == [P.Reject] + [P.CountIgnored];
    Rejecting(w.(receiver := P.Rejecting, seen := w.seen + 1));
  }

  /** The actions of processing a request at a reference: it counts as received before it is answered. */
  function ServeActions(answered: bool, taken: bool): seq<P.Action> {
    if answered then [P.Serve, P.Reply(taken), P.CountReply] else [P.Reject, P.CountIgnored]
  }

  /** A request that nothing interrupts is answered or ignored as the specification of the call says. */
  lemma ServeRefines(w: P.World, s: ClockState, link: Link, packet: Packet, taken: bool)
    requires Shows(w, s) && w.receiver == P.Waiting
    ensures Shows(P.After(w, ServeActions(AnswerTo(s.config, link, packet).Some?, taken)),
                  AfterRequest(s, link, packet, taken))
  {
    if AnswerTo(s.config, link, packet).Some? {
      P.AfterThree(w, P.Serve, P.Reply(taken), P.CountReply);
      Serving(w, taken);
    } else {
      RejectionRefines(w, s);
    }
  }

  lemma Serving(w: P.World, taken: bool)
    requires w.receiver == P.Waiting
    ensures var n := P.Do(P.Do(P.Do(w, P.Serve), P.Reply(taken)), P.CountReply);
            && n.fetches == w.fetches && n.pending == w.pending
            && n.stats == CountAnswer(w.stats, 1, taken)
  {
    var w2 := P.Do(P.Do(w, P.Serve), P.Reply(taken));
    assert w2.receiver == P.Served(taken);
  }

  /** The stores of a reset that nothing interrupts have the effect of the call. */
  lemma ResetRefines(w: P.World, s: ClockState, link: Link)
    requires Shows(w, s)
    ensures Shows(P.After(w, ClockCounters.Stores(ClockCounters.RESET_ORDER)), Next(s, link, ResetStatisticsCall))
  {
    ClockCounters.AfterStores(w, ClockCounters.RESET_ORDER);
    ClockCounters.AfterReset(w);
  }
}
