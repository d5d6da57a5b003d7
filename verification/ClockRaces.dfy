/** What concurrent requests can do: have one number accepted twice in a row, and forget a request the radio took. */
module ClockRaces {
  import opened RadioTypes
  import opened ClockProtocol
  import opened ClockPending

  ghost predicate Reachable(w: World) {
    exists actions :: ClockProtocol.After(START, actions) == w
  }

  lemma Onward(w: World, a: Action)
    requires Reachable(w)
    ensures Reachable(Do(w, a))
  {
    var actions :| ClockProtocol.After(START, actions) == w;
    assert (actions + [a])[..|actions|] == actions;
    assert ClockProtocol.After(START, actions + [a]) == Do(w, a);
  }

  lemma StartIsReachable()
    ensures Reachable(START)
  {
    assert ClockProtocol.After(START, []) == START;
  }

  /** A request with its number is put in the cell and handed to the radio. */
  lemma Sent(w: World, v: nat, taken: bool) returns (w': World)
    requires Reachable(w) && At(w, v).Numbered?
    ensures Reachable(w') && w'.requesters == w.requesters[v := if taken then Taken else Refused(At(w, v).ticket)]
    ensures w'.fetches == w.fetches && w'.accepted == w.accepted && w'.receiver == w.receiver
    ensures At(w, v).ticket in w'.asked && At(w, v).ticket in w'.posted && w'.pending == Some(At(w, v).ticket)
  {
    var w1 := Do(w, ReadClock(v, 0));
    Onward(w, ReadClock(v, 0));
    var w2 := Do(w1, Post(v));
    Onward(w1, Post(v));
    w' := Do(w2, Send(v, taken));
    Onward(w2, Send(v, taken));
  }

  /** The radio refuses it. */
  lemma Fail(w: World, v: nat) returns (w': World)
    requires Reachable(w) && At(w, v).Numbered?
    ensures Reachable(w') && w'.requesters == w.requesters[v := Idle]
    ensures w'.fetches == w.fetches && w'.accepted == w.accepted && w'.receiver == w.receiver
  {
    var w1 := Sent(w, v, false);
    var w2 := Do(w1, Retract(v));
    Onward(w1, Retract(v));
    w' := Do(w2, CountOutcome(v));
    Onward(w2, CountOutcome(v));
  }

  /** The radio takes it. */
  lemma Succeed(w: World, v: nat) returns (w': World)
    requires Reachable(w) && At(w, v).Numbered?
    ensures Reachable(w') && w'.requesters == w.requesters[v := Idle]
    ensures w'.fetches == w.fetches && w'.accepted == w.accepted && w'.receiver == w.receiver
    ensures At(w, v).ticket in w'.asked && w'.pending == Some(At(w, v).ticket)
  {
    var w1 := Sent(w, v, true);
    w' := Do(w1, CountOutcome(v));
    Onward(w1, CountOutcome(v));
  }

  /** A thread gets as far as fetching. */
  lemma Admitted(w: World, v: nat) returns (w': World)
    requires Reachable(w) && At(w, v) == Idle
    ensures Reachable(w') && w'.requesters == w.requesters[v := Approved]
    ensures w'.fetches == w.fetches && w'.accepted == w.accepted && w'.receiver == w.receiver
  {
    var w1 := Do(w, Begin(v));
    Onward(w, Begin(v));
    w' := Do(w1, Approve(v));
    Onward(w1, Approve(v));
  }

  /** Where a thread is with what it fetched. */
  function WithTicket(ticket: nat): Requester {
    if ticket % U32_MODULUS == 0 then Wrapped(ticket) else Numbered(ticket)
  }

  lemma FetchIs(w: World, v: nat)
    requires At(w, v) == Approved
    ensures Do(w, Fetch(v)) == w.(requesters := w.requesters[v := WithTicket(w.fetches + 1)], fetches := w.fetches + 1)
  {
  }

  lemma Fetched(w: World, v: nat) returns (w': World)
    requires Reachable(w) && At(w, v) == Idle
    ensures Reachable(w') && w'.requesters == w.requesters[v := WithTicket(w.fetches + 1)]
    ensures w'.fetches == w.fetches + 1 && w'.accepted == w.accepted && w'.receiver == w.receiver
  {
    var w1 := Admitted(w, v);
    FetchIs(w1, v);
    w' := Do(w1, Fetch(v));
    Onward(w1, Fetch(v));
  }

  /** A thread that fetches a number other than 0 keeps it. */
  lemma FetchedNumber(w: World, v: nat) returns (w': World)
    requires Reachable(w) && At(w, v) == Idle && (w.fetches + 1) % U32_MODULUS != 0
    ensures Reachable(w') && w'.requesters == w.requesters[v := Numbered(w.fetches + 1)]
    ensures w'.fetches == w.fetches + 1 && w'.accepted == w.accepted && w'.receiver == w.receiver
  {
    w' := Fetched(w, v);
  }

  lemma EarlyFetches()
    ensures 1 % U32_MODULUS != 0 && 2 % U32_MODULUS != 0 && (2 * U32_MODULUS + 1) % U32_MODULUS != 0
    ensures NumberOf(2 * U32_MODULUS) == NumberOf(2 * U32_MODULUS + 1)
  {
  }

  lemma WithinTurn(fetches: nat, n: nat)
    requires 0 < n && fetches % U32_MODULUS + n < U32_MODULUS
    ensures (fetches + 1) % U32_MODULUS != 0 && (fetches + 1) % U32_MODULUS + (n - 1) < U32_MODULUS
  {
  }

  /** A thread makes one request that the radio refuses. */
  lemma BurnOne(w: World, v: nat) returns (w': World)
    requires Reachable(w) && At(w, v) == Idle && (w.fetches + 1) % U32_MODULUS != 0
    ensures Reachable(w') && At(w', v) == Idle && forall u | u != v :: At(w', u) == At(w, u)
    ensures w'.fetches == w.fetches + 1 && w'.accepted == w.accepted && w'.receiver == w.receiver
  {
    var w1 := FetchedNumber(w, v);
    w' := Fail(w1, v);
  }

  /** A thread makes requests that the radio refuses, one fetch each, up to just before the counter's next turn. */
  lemma {:induction false} Burn(w: World, v: nat, n: nat) returns (w': World)
    requires Reachable(w) && At(w, v) == Idle
    requires w.fetches % U32_MODULUS + n < U32_MODULUS
    ensures Reachable(w') && At(w', v) == Idle && forall u | u != v :: At(w', u) == At(w, u)
    ensures w'.fetches == w.fetches + n && w'.accepted == w.accepted && w'.receiver == w.receiver
    decreases n
  {
    w' := w;
    if n != 0 {
      WithinTurn(w.fetches, n);
      var w1 := BurnOne(w, v);
      w' := Burn(w1, v, n - 1);
    }
  }

  /** The response to a pending request arrives and matches the cell. */
  lemma Match(w: World, ticket: nat) returns (w': World)
    requires Reachable(w) && w.receiver == Waiting && ticket in w.asked && w.pending == Some(ticket)
    ensures Reachable(w') && w'.requesters == w.requesters && w'.fetches == w.fetches && w'.accepted == w.accepted
    ensures w'.receiver.Matched? && w'.receiver.ticket == ticket
  {
    var w1 := Do(w, Arrive(ticket));
    Onward(w, Arrive(ticket));
    w' := Do(w1, Load);
    Onward(w1, Load);
  }

  /** A matched response clears the cell and is counted. */
  lemma CountMatch(w: World) returns (w': World)
    requires Reachable(w) && w.receiver.Matched?
    ensures Reachable(w') && w'.requesters == w.requesters && w'.fetches == w.fetches && w'.accepted == w.accepted
    ensures w'.receiver == Counted(w.receiver.origin, w.receiver.t1, w.receiver.ticket)
  {
    var w1 := Do(w, Clear);
    Onward(w, Clear);
    w' := Do(w1, CountResponse);
    Onward(w1, CountResponse);
  }

  /** Its sample is submitted and judged. */
  lemma Credit(w: World) returns (w': World)
    requires Reachable(w) && w.receiver.Counted?
    ensures Reachable(w') && w'.requesters == w.requesters && w'.fetches == w.fetches && w'.receiver == Waiting
    ensures w'.accepted == w.accepted + [Acceptance(w.receiver.ticket, w.receiver.origin, w.receiver.t1)]
  {
    var w1 := Do(w, Submit(true));
    Onward(w, Submit(true));
    w' := Do(w1, CountVerdict);
    Onward(w1, CountVerdict);
  }

  /** A numbered request is sent, answered at once, and its answer accepted. */
  lemma Exchange(w: World, v: nat) returns (w': World)
    requires Reachable(w) && At(w, v).Numbered? && w.receiver == Waiting
    ensures Reachable(w') && w'.requesters == w.requesters[v := Idle]
    ensures w'.fetches == w.fetches && w'.receiver == Waiting && |w'.accepted| == |w.accepted| + 1
    ensures w'.accepted[..|w.accepted|] == w.accepted && w'.accepted[|w.accepted|].ticket == At(w, v).ticket
  {
    var w1 := Succeed(w, v);
    var w2 := Match(w1, At(w, v).ticket);
    var w3 := CountMatch(w2);
    w' := Credit(w3);
  }

  /**
    Thread 0 fetches the counter's first 0, and before its second fetch thread 1 makes 2^32 - 1 requests: the second
    fetch is 0 again.
   */
  lemma TwoZeros() returns (w: World)
    ensures Reachable(w) && w.fetches == 2 * U32_MODULUS && w.receiver == Waiting && w.accepted == []
    ensures At(w, 0) == Numbered(2 * U32_MODULUS) && At(w, 1) == Idle
  {
    StartIsReachable();
    var w1 := Burn(START, 1, U32_MODULUS - 1);
    var w2 := Fetched(w1, 0);
    var w3 := Burn(w2, 1, U32_MODULUS - 1);
    assert At(w3, 0) == At(w2, 0);
    w := Do(w3, Refetch(0));
    Onward(w3, Refetch(0));
  }

  /** The second 0 becomes 1; that request is answered and its answer accepted. */
  lemma FallbackAccepted() returns (w: World)
    ensures Reachable(w) && w.fetches == 2 * U32_MODULUS && w.receiver == Waiting && At(w, 1) == Idle
    ensures |w.accepted| == 1 && w.accepted[0].ticket == 2 * U32_MODULUS
  {
    var w1 := TwoZeros();
    w := Exchange(w1, 0);
  }

  /** The next request's number is 1 by right; it is answered and accepted, too. */
  lemma NumberAcceptedTwiceInARow() returns (w: World)
    ensures Reachable(w) && |w.accepted| == 2
    ensures NumberOf(w.accepted[0].ticket) == NumberOf(w.accepted[1].ticket)
    ensures w.accepted[1].ticket == w.accepted[0].ticket + 1 && w.fetches == 2 * U32_MODULUS + 1
  {
    EarlyFetches();
    var w1 := FallbackAccepted();
    var w2 := FetchedNumber(w1, 1);
    w := Exchange(w2, 1);
    assert w.accepted[0] == w.accepted[..1][0];
  }

  /** The first request's response has arrived and matched the cell. */
  lemma FirstMatched() returns (w: World)
    ensures Reachable(w) && w.fetches == 1 && At(w, 1) == Idle
    ensures w.receiver.Matched? && w.receiver.ticket == 1
  {
    StartIsReachable();
    EarlyFetches();
    var w1 := FetchedNumber(START, 0);
    var w2 := Sent(w1, 0, true);
    w := Match(w2, 1);
  }

  /**
    The receiver compares the cell and clears it in two steps. A request that puts its number in between is taken by the
    radio but forgotten.
   */
  lemma NewerRequestForgotten() returns (w: World)
    ensures Reachable(w) && Forgotten(w, 2) && 2 in w.asked && At(w, 1) == Taken
    ensures w.receiver.Cleared? && w.receiver.ticket == 1
  {
    EarlyFetches();
    var w1 := FirstMatched();
    var w2 := FetchedNumber(w1, 1);
    var w3 := Sent(w2, 1, true);
    ReachableIsSound(w3);
    w := Do(w3, Clear);
    Onward(w3, Clear);
    ForgottenStep(w3, Clear, 2);
  }

  /** The first request was refused; before it is retracted, the second is taken and pending. */
  lemma RefusedBeforeTaken() returns (w: World)
    ensures Reachable(w) && At(w, 0).Refused? && At(w, 0).ticket == 1 && At(w, 1) == Taken
    ensures w.pending == Some(2) && 2 in w.asked && 2 in w.posted && w.receiver == Waiting && w.accepted == []
  {
    StartIsReachable();
    EarlyFetches();
    var w1 := FetchedNumber(START, 0);
    var w2 := Sent(w1, 0, false);
    var w3 := FetchedNumber(w2, 1);
    w := Sent(w3, 1, true);
  }

  /**
    A thread whose own request the radio refused empties the cell although another thread's request is in it by now.
   */
  lemma AnothersRequestForgotten() returns (w: World)
    ensures Reachable(w) && Forgotten(w, 2) && 2 in w.asked && At(w, 1) == Taken
    ensures w.receiver == Waiting && w.accepted == []
  {
    var w1 := RefusedBeforeTaken();
    ReachableIsSound(w1);
    w := Do(w1, Retract(0));
    Onward(w1, Retract(0));
    ForeignRetractForgets(w1, 0, 2);
  }

  lemma ReachableIsSound(w: World)
    requires Reachable(w)
    ensures Sound(w)
  {
    var actions :| ClockProtocol.After(START, actions) == w;
    AlwaysSound(actions);
  }
}
