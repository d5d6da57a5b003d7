/** How long a request stays pending, when it is forgotten, and what that means for its response. */
module ClockPending {
  import opened RadioTypes
  import opened ClockProtocol
  import opened ClockNumbers

  /** The action overwrites or empties the pending cell, whatever is in it. */
  predicate Displaces(w: World, a: Action) {
    || a.Restart?
    || (a.Post? && At(w, a.v).Stamped?)
    || (a.Retract? && At(w, a.v).Refused?)
    || (a.Clear? && w.receiver.Matched?)
  }

  /** One action makes a pending request no longer pending exactly if it touches the cell; it never puts it back. */
  lemma DisplacedIff(w: World, a: Action, ticket: nat)
    requires Sound(w) && ticket in w.posted
    ensures Do(w, a).pending == Some(ticket) <==> w.pending == Some(ticket) && !Displaces(w, a)
  {
    if a.Post? && At(w, a.v).Stamped? {
      assert RequesterSound(w, w.requesters[a.v]);
    }
  }

  /** Some action of the run displaces what is pending. */
  predicate Displaced(w: World, actions: seq<Action>) {
    actions != [] &&
    var last := |actions| - 1;
    Displaced(w, actions[..last]) || Displaces(After(w, actions[..last]), actions[last])
  }

  lemma {:induction false} StaysSound(w: World, actions: seq<Action>)
    requires Sound(w)
    ensures Sound(After(w, actions)) && w.posted <= After(w, actions).posted
  {
    if actions != [] {
      var last := |actions| - 1;
      StaysSound(w, actions[..last]);
      DoKeepsSound(After(w, actions[..last]), actions[last]);
    }
  }

  /**
    Over any run, a request that was pending still is exactly if no request was posted since, no refused one retracted,
    no matched response cleared the cell, and nothing was initialized or shut down.
   */
  lemma {:induction false} PendingIff(w: World, actions: seq<Action>, ticket: nat)
    requires Sound(w) && w.pending == Some(ticket)
    ensures After(w, actions).pending == Some(ticket) <==> !Displaced(w, actions)
  {
    if actions != [] {
      var last := |actions| - 1;
      PendingIff(w, actions[..last], ticket);
      StaysSound(w, actions[..last]);
      DisplacedIff(After(w, actions[..last]), actions[last], ticket);
    }
  }

  /** So its response, when it arrives, is matched as the answer to it exactly if none of these happened. */
  lemma ResponseMatchedIff(w: World, actions: seq<Action>, ticket: nat, t1: u64)
    requires Sound(w) && w.pending == Some(ticket) && After(w, actions).receiver == Holding(ticket, t1)
    ensures Do(After(w, actions), Load).receiver == Matched(ticket, t1, ticket) <==> !Displaced(w, actions)
  {
    PendingIff(w, actions, ticket);
  }

  // ----- forgotten for good -----

  /** The receiver has a response in hand that it matched with this request. */
  predicate InHand(w: World, ticket: nat) {
    (w.receiver.Matched? || Consuming(w.receiver)) && w.receiver.ticket == ticket
  }

  /** The request was pending and is no longer, nothing was matched with it, and nothing was accepted for it. */
  ghost predicate Forgotten(w: World, ticket: nat) {
    ticket in w.posted && w.pending != Some(ticket) && !InHand(w, ticket) && !IsAccepted(w, ticket)
  }

  /** The action forgets a pending request: it displaces it, and not because its own response was matched. */
  predicate Forgets(w: World, a: Action, ticket: nat) {
    w.pending == Some(ticket) && Displaces(w, a) && !InHand(w, ticket)
  }

  lemma ForgottenStep(w: World, a: Action, ticket: nat)
    requires Sound(w) && ticket in w.posted
    ensures Forgotten(Do(w, a), ticket) <==> Forgotten(w, ticket) || Forgets(w, a, ticket)
  {
    DisplacedIff(w, a, ticket);
    AcceptedStep(w, a, ticket);
  }

  lemma AcceptedStep(w: World, a: Action, ticket: nat)
    ensures IsAccepted(Do(w, a), ticket) <==>
              IsAccepted(w, ticket) || (a.Submit? && w.receiver.Counted? && w.receiver.ticket == ticket)
  {
    var w' := Do(w, a);
    if IsAccepted(w, ticket) {
      var i :| 0 <= i < |w.accepted| && w.accepted[i].ticket == ticket;
      assert w'.accepted[i] == w.accepted[i];
    }
    if a.Submit? && w.receiver.Counted? && w.receiver.ticket == ticket {
      assert w'.accepted[|w.accepted|].ticket == ticket;
    }
  }

  /** Some action of the run forgets the request. */
  predicate ForgottenIn(w: World, actions: seq<Action>, ticket: nat) {
    actions != [] &&
    var last := |actions| - 1;
    ForgottenIn(w, actions[..last], ticket) || Forgets(After(w, actions[..last]), actions[last], ticket)
  }

  /**
    A posted request is forgotten after a run exactly if it was before, or some action of the run displaced it while its
    own response was not matched: another request, another thread's failed one, the clearing of the cell for an older
    response, or a restart.
   */
  lemma {:induction false} ForgottenIff(w: World, actions: seq<Action>, ticket: nat)
    requires Sound(w) && ticket in w.posted
    ensures Forgotten(After(w, actions), ticket) <==> Forgotten(w, ticket) || ForgottenIn(w, actions, ticket)
  {
    if actions != [] {
      var last := |actions| - 1;
      ForgottenIff(w, actions[..last], ticket);
      StaysSound(w, actions[..last]);
      ForgottenStep(After(w, actions[..last]), actions[last], ticket);
    }
  }

  /** Nothing is ever accepted for a forgotten request, in any continuation. */
  lemma ForgottenForGood(w: World, actions: seq<Action>, ticket: nat)
    requires Sound(w) && Forgotten(w, ticket)
    ensures !IsAccepted(After(w, actions), ticket)
  {
    ForgottenIff(w, actions, ticket);
  }

  /**
    Its own response, whenever it arrives, is ignored or taken for another request's: one that has the same number
    because it is a turn of the counter away or next to a fallback.
   */
  lemma ForgottenIsIgnored(w: World, actions: seq<Action>, ticket: nat, t1: u64)
    requires Sound(w) && Forgotten(w, ticket) && After(w, actions).receiver == Holding(ticket, t1)
    ensures match Do(After(w, actions), Load).receiver
            case Matched(_, _, other) => other != ticket && FarOrFallback(other, ticket)
            case r => r == Rejecting
  {
    var w' := After(w, actions);
    ForgottenIff(w, actions, ticket);
    StaysSound(w, actions);
    if w'.pending.Some? && NumberOf(w'.pending.value) == NumberOf(ticket) {
      SameNumbers(w'.pending.value, ticket);
    }
  }

  /** A turn of the counter apart, or next to a multiple of 2^32, which only a fallback keeps. */
  predicate FarOrFallback(x: nat, y: nat) {
    || U32_MODULUS <= Distance(x, y)
    || (Distance(x, y) in {1, U32_MODULUS - 1} && (x % U32_MODULUS == 0 || y % U32_MODULUS == 0))
  }

  lemma SameNumbers(x: nat, y: nat)
    requires 0 < x && 0 < y && x != y && NumberOf(x) == NumberOf(y)
    ensures FarOrFallback(x, y)
  {
    if x < y {
      SameNumber(x, y);
    } else {
      SameNumber(y, x);
    }
  }

  /** The thread's own refused request is no longer in the cell: retracting it would empty the cell of another's. */
  predicate RetractsForeign(w: World, v: nat, ticket: nat) {
    At(w, v).Refused? && w.pending == Some(ticket) && At(w, v).ticket != ticket
  }

  /** A refused request that meanwhile lost the cell to another one takes the other one down with it. */
  lemma ForeignRetractForgets(w: World, v: nat, ticket: nat)
    requires Sound(w) && RetractsForeign(w, v, ticket)
    ensures Forgotten(Do(w, Retract(v)), ticket) <==> !InHand(w, ticket)
  {
    ForgottenStep(w, Retract(v), ticket);
  }
}
