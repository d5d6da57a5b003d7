/** When sequence numbers come back, and whose T1 an accepted response carries. */
module ClockNumbers {
  import opened Arithmetic
  import opened RadioTypes
  import opened ClockProtocol

  // ----- the fallback for two zeros in a row -----

  /**
    This action is a second fetch that yields 0 again: 2^32 - 1 fetches, up to whole turns, lie between the first and
    the second.
   */
  predicate FallsBackAt(w: World, a: Action, ticket: nat) {
    && a.Refetch? && At(w, a.v).Wrapped? && ticket == w.fetches + 1
    && (w.fetches - At(w, a.v).first) % U32_MODULUS == U32_MODULUS - 1
  }

  /** Some action of the run numbered the request with this ticket by the fallback. */
  predicate FellBack(actions: seq<Action>, ticket: nat) {
    actions != [] &&
    var last := |actions| - 1;
    FellBack(actions[..last], ticket) || FallsBackAt(After(START, actions[..last]), actions[last], ticket)
  }

  lemma SecondFetch(w: World, v: nat)
    requires TicketsSound(w) && At(w, v).Wrapped?
    ensures (w.fetches + 1) % U32_MODULUS == 0 <==> FallsBackAt(w, Refetch(v), w.fetches + 1)
  {
    assert RequesterSound(w, w.requesters[v]);
  }

  /** The ticket is handed out in this world. */
  predicate Held(w: World, ticket: nat) {
    ticket in w.posted || exists v :: v in w.requesters && Carries(w.requesters[v]) && w.requesters[v].ticket == ticket
  }

  /** A ticket held after an action was held before, or was fetched by it. */
  lemma HeldSince(w: World, a: Action, ticket: nat)
    requires Held(Do(w, a), ticket)
    ensures Held(w, ticket) || (ticket == w.fetches + 1 && a.Fetch? && ticket % U32_MODULUS != 0)
            || (ticket == w.fetches + 1 && a.Refetch? && At(w, a.v).Wrapped?)
  {
  }

  /** Exactly the tickets numbered by the fallback are multiples of 2^32. */
  lemma FallbackIffMultiple(actions: seq<Action>, ticket: nat)
    requires Held(After(START, actions), ticket)
    ensures ticket % U32_MODULUS == 0 <==> FellBack(actions, ticket)
  {
    if ticket % U32_MODULUS == 0 {
      MultipleFellBack(actions, ticket);
    } else if FellBack(actions, ticket) {
      FellBackIsMultiple(actions, ticket);
    }
  }

  lemma {:induction false} FellBackIsMultiple(actions: seq<Action>, ticket: nat)
    requires FellBack(actions, ticket)
    ensures ticket % U32_MODULUS == 0
  {
    var last := |actions| - 1;
    if FellBack(actions[..last], ticket) {
      FellBackIsMultiple(actions[..last], ticket);
    } else {
      AlwaysSound(actions[..last]);
      SecondFetch(After(START, actions[..last]), actions[last].v);
    }
  }

  lemma {:induction false} MultipleFellBack(actions: seq<Action>, ticket: nat)
    requires Held(After(START, actions), ticket) && ticket % U32_MODULUS == 0
    ensures FellBack(actions, ticket)
  {
    if actions != [] {
      var last := |actions| - 1;
      var w := After(START, actions[..last]);
      HeldSince(w, actions[last], ticket);
      if Held(w, ticket) {
        MultipleFellBack(actions[..last], ticket);
      } else {
        AlwaysSound(actions[..last]);
        SecondFetch(w, actions[last].v);
      }
    }
  }

  // ----- two requests with one number -----

  /**
    Two tickets with one number are less than a turn apart exactly if one is a fallback and the other a 1 beside it.
   */
  lemma SameNumber(x: nat, y: nat)
    requires 0 < x < y && NumberOf(x) == NumberOf(y)
    ensures y - x < U32_MODULUS <==>
              || (x % U32_MODULUS == 0 && y == x + 1)
              || (y % U32_MODULUS == 0 && y == x + U32_MODULUS - 1)
  {
  }

  /**
    Two accepted responses with one sequence number answer requests at least 2^32 fetches of the counter apart, whatever
    was initialized, shut down or lost in between, but for one family: one of the two was numbered by the fallback, and
    the other is the true 1 next to it.
   */
  lemma AcceptedOncePerTurn(actions: seq<Action>, i: nat, j: nat)
    requires var w := After(START, actions);
             i < |w.accepted| && j < |w.accepted| && w.accepted[i].ticket < w.accepted[j].ticket
             && NumberOf(w.accepted[i].ticket) == NumberOf(w.accepted[j].ticket)
    ensures var w := After(START, actions);
            var x, y := w.accepted[i].ticket, w.accepted[j].ticket;
            y - x < U32_MODULUS <==>
              || (FellBack(actions, x) && y == x + 1)
              || (FellBack(actions, y) && y == x + U32_MODULUS - 1)
  {
    AlwaysSound(actions);
    var w := After(START, actions);
    assert AcceptanceSound(w, w.accepted[i]) && AcceptanceSound(w, w.accepted[j]);
    FallbackIffMultiple(actions, w.accepted[i].ticket);
    FallbackIffMultiple(actions, w.accepted[j].ticket);
    SameNumber(w.accepted[i].ticket, w.accepted[j].ticket);
  }

  /** The fallback takes 2^33 fetches: before that, accepted numbers are a turn apart. */
  lemma NoEarlyRepeat(actions: seq<Action>, i: nat, j: nat)
    requires var w := After(START, actions);
             w.fetches < 2 * U32_MODULUS && i < j < |w.accepted|
             && NumberOf(w.accepted[i].ticket) == NumberOf(w.accepted[j].ticket)
    ensures var w := After(START, actions); U32_MODULUS <= Distance(w.accepted[i].ticket, w.accepted[j].ticket)
  {
    AlwaysSound(actions);
    var w := After(START, actions);
    assert AcceptanceSound(w, w.accepted[i]) && AcceptanceSound(w, w.accepted[j]);
    var x, y := w.accepted[i].ticket, w.accepted[j].ticket;
    if x < y {
      SameNumber(x, y);
    } else {
      SameNumber(y, x);
    }
  }

  function Distance(x: int, y: int): nat {
    if x < y then y - x else x - y
  }

  // ----- the distance in requests -----

  /** The action gives a request its number. */
  predicate GivesNumber(w: World, a: Action) {
    || (a.Fetch? && At(w, a.v) == Approved && (w.fetches + 1) % U32_MODULUS != 0)
    || (a.Refetch? && At(w, a.v).Wrapped?)
  }

  /** How many requests the run numbered, up to and including the one with this ticket. */
  function RequestsUpTo(actions: seq<Action>, ticket: nat): nat {
    if actions == [] then 0
    else
      var last := |actions| - 1;
      var w := After(START, actions[..last]);
      RequestsUpTo(actions[..last], ticket) + if GivesNumber(w, actions[last]) && w.fetches < ticket then 1 else 0
  }

  /** How many of them by the fallback. */
  function FallbacksUpTo(actions: seq<Action>, ticket: nat): nat {
    if actions == [] then 0
    else
      var last := |actions| - 1;
      var w := After(START, actions[..last]);
      FallbacksUpTo(actions[..last], ticket) +
        if FallsBackAt(w, actions[last], w.fetches + 1) && w.fetches < ticket then 1 else 0
  }

  lemma NextTurn(k: nat)
    ensures (k + 1) / U32_MODULUS == k / U32_MODULUS + if (k + 1) % U32_MODULUS == 0 then 1 else 0
  {
  }

  /** An action numbers at most one request, and uses up a fetch for it or for the first of two zeros. */
  lemma NumberingStep(w: World, a: Action)
    requires TicketsSound(w)
    ensures var f, f' := w.fetches, Do(w, a).fetches;
            && (FallsBackAt(w, a, f + 1) ==> GivesNumber(w, a))
            && (f' == f + 1 || (f' == f && !GivesNumber(w, a)))
            && (f' == f + 1 ==>
                  (GivesNumber(w, a) <==> (f + 1) % U32_MODULUS != 0 || FallsBackAt(w, a, f + 1))
                  && (FallsBackAt(w, a, f + 1) ==> (f + 1) % U32_MODULUS == 0))
  {
    if a.Refetch? && At(w, a.v).Wrapped? {
      SecondFetch(w, a.v);
    }
  }

  /** All fetches number requests but the first zeros, one in every turn. */
  lemma {:induction false} RequestsAre(actions: seq<Action>, ticket: nat)
    ensures var upTo := Min(ticket, After(START, actions).fetches);
            RequestsUpTo(actions, ticket) == upTo - upTo / U32_MODULUS + FallbacksUpTo(actions, ticket)
  {
    if actions == [] {
    } else {
      var last := |actions| - 1;
      var w := After(START, actions[..last]);
      AlwaysSound(actions[..last]);
      RequestsAre(actions[..last], ticket);
      NumberingStep(w, actions[last]);
      NextTurn(w.fetches);
    }
  }

  lemma {:induction false} RequestsGrow(actions: seq<Action>, x: nat, y: nat)
    requires x <= y
    ensures var f := After(START, actions).fetches;
            RequestsUpTo(actions, y) - RequestsUpTo(actions, x) <= Min(y, f) - Min(x, f)
    ensures FallbacksUpTo(actions, x) + (if x < y && FellBack(actions, y) then 1 else 0) <= FallbacksUpTo(actions, y)
  {
    if actions != [] {
      var last := |actions| - 1;
      AlwaysSound(actions[..last]);
      RequestsGrow(actions[..last], x, y);
      NumberingStep(After(START, actions[..last]), actions[last]);
    }
  }

  /** In requests: one turn of the counter numbers one request less than it has values. */
  lemma ApartInRequests(x: nat, y: nat, fallbacks: nat)
    requires 0 < x < y && NumberOf(x) == NumberOf(y) && !(x % U32_MODULUS == 0 && y == x + 1)
    requires y % U32_MODULUS == 0 ==> 1 <= fallbacks
    ensures U32_MODULUS - 1 <= (y - y / U32_MODULUS) - (x - x / U32_MODULUS) + fallbacks
  {
  }

  /**
    Counted in requests, as a caller counts them: two accepted responses with one number answer requests at least
    2^32 - 1 requests apart, unless the earlier took the fallback and the later is the very next one.
   */
  lemma AcceptedRequestsApart(actions: seq<Action>, i: nat, j: nat)
    requires var w := After(START, actions);
             i < |w.accepted| && j < |w.accepted| && w.accepted[i].ticket < w.accepted[j].ticket
             && NumberOf(w.accepted[i].ticket) == NumberOf(w.accepted[j].ticket)
    ensures var w := After(START, actions);
            var x, y := w.accepted[i].ticket, w.accepted[j].ticket;
            RequestsUpTo(actions, y) - RequestsUpTo(actions, x) < U32_MODULUS - 1 <==>
              FellBack(actions, x) && y == x + 1
  {
    AlwaysSound(actions);
    var w := After(START, actions);
    var x, y := w.accepted[i].ticket, w.accepted[j].ticket;
    assert AcceptanceSound(w, w.accepted[i]) && AcceptanceSound(w, w.accepted[j]);
    FallbackIffMultiple(actions, x);
    FallbackIffMultiple(actions, y);
    RequestsAre(actions, x);
    RequestsAre(actions, y);
    RequestsGrow(actions, x, y);
    if !(x % U32_MODULUS == 0 && y == x + 1) {
      ApartInRequests(x, y, FallbacksUpTo(actions, y) - FallbacksUpTo(actions, x));
    }
  }

  // ----- a sample's T1 is the T1 of its own request -----

  /**
    Every accepted response carries the T1 of a request with the number it was accepted for: of the very request, or of
    one at least a turn of the counter away, or of the fallback's neighbour.
   */
  lemma SamplesAreGenuine(actions: seq<Action>, i: nat)
    requires i < |After(START, actions).accepted|
    ensures var w := After(START, actions);
            var a := w.accepted[i];
            && a.origin in w.asked && a.t1 == w.asked[a.origin] && NumberOf(a.origin) == NumberOf(a.ticket)
            && (a.origin == a.ticket || U32_MODULUS <= Distance(a.origin, a.ticket)
                || ((FellBack(actions, a.origin) || FellBack(actions, a.ticket))
                    && Distance(a.origin, a.ticket) in {1, U32_MODULUS - 1}))
            && (w.fetches < U32_MODULUS ==> a.ticket in w.asked && a.t1 == w.asked[a.ticket])
  {
    AlwaysSound(actions);
    var w := After(START, actions);
    var a := w.accepted[i];
    assert AcceptanceSound(w, a);
    FallbackIffMultiple(actions, a.origin);
    FallbackIffMultiple(actions, a.ticket);
    if a.origin < a.ticket {
      SameNumber(a.origin, a.ticket);
    } else if a.ticket < a.origin {
      SameNumber(a.ticket, a.origin);
    }
  }
}
