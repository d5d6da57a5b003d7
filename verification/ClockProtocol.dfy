/**
  The synchronizer under concurrency: any number of threads requesting and one thread receiving, interleaved between
  their accesses to the shared atomics, with other threads initializing and shutting down in between.
 */
module ClockProtocol {
  import opened RadioTypes
  import opened ClockSteps

  /** Where a thread is in RequestSynchronization; a ticket is how many fetches of the sequence counter there were. */
  datatype Requester =
    | Idle
    | Attempted
    | Approved
    | Wrapped(first: nat)
    | Numbered(ticket: nat)
    | Stamped(ticket: nat, t1: u64)
    | Posted(ticket: nat, t1: u64)
    | Taken
    | Refused(ticket: nat)
    | Failed

  /**
    Where the receiving thread is. `origin` is the ticket of the request that the response in hand answers; the
    reference returned that request's T1.
   */
  datatype Receiver =
    | Waiting
    | Rejecting
    | Holding(origin: nat, t1: u64)
    | Matched(origin: nat, t1: u64, ticket: nat)
    | Cleared(origin: nat, t1: u64, ticket: nat)
    | Counted(origin: nat, t1: u64, ticket: nat)
    | Judged(good: bool)
    | Serving
    | Served(taken: bool)

  /** A response accepted as the answer to the request with this ticket. */
  datatype Acceptance = Acceptance(ticket: nat, origin: nat, t1: u64)

  /**
    `fetches` counts the fetches of the sequence counter; `pending` is the ticket whose number the pending cell holds,
    if it is not 0; `asked` has the T1 of every request handed to the radio, `posted` the tickets ever put in the cell,
    and `seen` counts the packets the receiver looked at.
   */
  datatype World = World(
    fetches: nat, pending: Option<nat>, requesters: map<nat, Requester>, receiver: Receiver,
    asked: map<nat, u64>, posted: set<nat>, accepted: seq<Acceptance>,
    stats: Statistics, dropped: Dropped, seen: nat)

  /** The counters, in the order in which a reset of the statistics stores 0 in them. */
  datatype Counter =
    | RequestsAttempted | RequestsSent | RequestsReceived | ResponsesSent | ResponsesReceived
    | SendFailures | IgnoredFrames | SamplesAccepted | SamplesRejected | TimestampFallbacks

  /** What resets took out of the counters so far, by the sums that the counters enter. */
  datatype Dropped = Dropped(requestsIn: nat, requestsOut: nat, samplesIn: nat, samplesOut: nat, packets: nat)

  const START :=
    World(0, None, map[], Waiting, map[], {}, [], NO_STATISTICS, Dropped(0, 0, 0, 0, 0), 0)

  /** The number the code derives from a fetch; the counter starts at 1, and a second 0 in a row becomes 1. */
  function NumberOf(ticket: nat): u32 {
    if ticket % U32_MODULUS == 0 then 1 else ticket % U32_MODULUS
  }

  datatype Action =
    | Begin(v: nat) | Decline(v: nat) | Approve(v: nat) | Fetch(v: nat) | Refetch(v: nat) | ReadClock(v: nat, now: u64)
    | Post(v: nat) | Send(v: nat, taken: bool) | Retract(v: nat) | CountOutcome(v: nat)
    | Arrive(origin: nat) | Load | Clear | CountResponse | Submit(good: bool) | CountVerdict
    | Serve | Reply(taken: bool) | CountReply
    | Reject | CountIgnored
    | Restart | Zero(counter: Counter)

  function At(w: World, v: nat): Requester {
    if v in w.requesters then w.requesters[v] else Idle
  }

  function Move(w: World, v: nat, r: Requester): World {
    w.(requesters := w.requesters[v := r])
  }

  /** The value of a counter. */
  function Value(stats: Statistics, c: Counter): u64 {
    match c
    case RequestsAttempted => stats.requestsAttempted
    case RequestsSent => stats.requestsSent
    case RequestsReceived => stats.requestsReceived
    case ResponsesSent => stats.responsesSent
    case ResponsesReceived => stats.responsesReceived
    case SendFailures => stats.sendFailures
    case IgnoredFrames => stats.ignoredFrames
    case SamplesAccepted => stats.samplesAccepted
    case SamplesRejected => stats.samplesRejected
    case TimestampFallbacks => stats.timestampFallbacks
  }

  /** The counters once 0 was stored in one of them. */
  function Zeroed(stats: Statistics, c: Counter): Statistics {
    match c
    case RequestsAttempted => stats.(requestsAttempted := 0)
    case RequestsSent => stats.(requestsSent := 0)
    case RequestsReceived => stats.(requestsReceived := 0)
    case ResponsesSent => stats.(responsesSent := 0)
    case ResponsesReceived => stats.(responsesReceived := 0)
    case SendFailures => stats.(sendFailures := 0)
    case IgnoredFrames => stats.(ignoredFrames := 0)
    case SamplesAccepted => stats.(samplesAccepted := 0)
    case SamplesRejected => stats.(samplesRejected := 0)
    case TimestampFallbacks => stats.(timestampFallbacks := 0)
  }

  /** What is dropped in all once `n` is taken out of a counter. */
  function DroppedFrom(d: Dropped, c: Counter, n: nat): Dropped {
    match c
    case RequestsAttempted => d.(requestsIn := d.requestsIn + n)
    case RequestsReceived => d.(requestsIn := d.requestsIn + n, packets := d.packets + n)
    case RequestsSent | ResponsesSent | SendFailures => d.(requestsOut := d.requestsOut + n)
    case ResponsesReceived => d.(samplesIn := d.samplesIn + n, packets := d.packets + n)
    case SamplesAccepted | SamplesRejected => d.(samplesOut := d.samplesOut + n)
    case IgnoredFrames => d.(packets := d.packets + n)
    case TimestampFallbacks => d
  }

  /** One access to a shared atomic, or one call of the radio or the clock. What is not possible does nothing. */
  function Do(w: World, a: Action): World {
    match a
    case Begin(v) =>
      if At(w, v) != Idle then w
      else Move(w, v, Attempted).(stats := w.stats.(requestsAttempted := Count(w.stats.requestsAttempted)))
    case Decline(v) => if At(w, v) != Attempted then w else Move(w, v, Failed)
    case Approve(v) => if At(w, v) != Attempted then w else Move(w, v, Approved)
    case Fetch(v) =>
      if At(w, v) != Approved then w
      else
        var ticket := w.fetches + 1;
        Move(w, v, if ticket % U32_MODULUS == 0 then Wrapped(ticket) else Numbered(ticket)).(fetches := ticket)
    case Refetch(v) =>
      if !At(w, v).Wrapped? then w else Move(w, v, Numbered(w.fetches + 1)).(fetches := w.fetches + 1)
    case ReadClock(v, now) => if !At(w, v).Numbered? then w else Move(w, v, Stamped(At(w, v).ticket, now))
    case Post(v) =>
      if !At(w, v).Stamped? then w
      else
        var ticket := At(w, v).ticket;
        Move(w, v, Posted(ticket, At(w, v).t1)).(pending := Some(ticket), posted := w.posted + {ticket})
    case Send(v, taken) =>
      if !At(w, v).Posted? then w
      else
        Move(w, v, if taken then Taken else Refused(At(w, v).ticket))
          .(asked := w.asked[At(w, v).ticket := At(w, v).t1])
    case Retract(v) => if !At(w, v).Refused? then w else Move(w, v, Failed).(pending := None)
    case CountOutcome(v) =>
      if At(w, v) == Taken then Move(w, v, Idle).(stats := w.stats.(requestsSent := Count(w.stats.requestsSent)))
      else if At(w, v) == Failed then Move(w, v, Idle).(stats := w.stats.(sendFailures := Count(w.stats.sendFailures)))
      else w
    case Arrive(origin) =>
      if w.receiver != Waiting || origin !in w.asked then w
      else w.(receiver := Holding(origin, w.asked[origin]), seen := w.seen + 1)
    case Load =>
      if !w.receiver.Holding? then w
      else if w.pending.None? || NumberOf(w.pending.value) != NumberOf(w.receiver.origin) then
        w.(receiver := Rejecting)
      else w.(receiver := Matched(w.receiver.origin, w.receiver.t1, w.pending.value))
    case Clear =>
      if !w.receiver.Matched? then w
      else w.(receiver := Cleared(w.receiver.origin, w.receiver.t1, w.receiver.ticket), pending := None)
    case CountResponse =>
      if !w.receiver.Cleared? then w
      else w.(receiver := Counted(w.receiver.origin, w.receiver.t1, w.receiver.ticket),
              stats := w.stats.(responsesReceived := Count(w.stats.responsesReceived)))
    case Submit(good) =>
      if !w.receiver.Counted? then w
      else w.(receiver := Judged(good),
              accepted := w.accepted + [Acceptance(w.receiver.ticket, w.receiver.origin, w.receiver.t1)])
    case CountVerdict =>
      if !w.receiver.Judged? then w
      else if w.receiver.good then
        w.(receiver := Waiting, stats := w.stats.(samplesAccepted := Count(w.stats.samplesAccepted)))
      else w.(receiver := Waiting, stats := w.stats.(samplesRejected := Count(w.stats.samplesRejected)))
    case Serve =>
      if w.receiver != Waiting then w
      else
        w.(receiver := Serving, seen := w.seen + 1,
           stats := w.stats.(requestsReceived := Count(w.stats.requestsReceived)))
    case Reply(taken) => if w.receiver != Serving then w else w.(receiver := Served(taken))
    case CountReply =>
      if !w.receiver.Served? then w
      else if w.receiver.taken then
        w.(receiver := Waiting, stats := w.stats.(responsesSent := Count(w.stats.responsesSent)))
      else w.(receiver := Waiting, stats := w.stats.(sendFailures := Count(w.stats.sendFailures)))
    case Reject => if w.receiver != Waiting then w else w.(receiver := Rejecting, seen := w.seen + 1)
    case CountIgnored =>
      if w.receiver != Rejecting then w
      else w.(receiver := Waiting, stats := w.stats.(ignoredFrames := Count(w.stats.ignoredFrames)))
    case Restart => w.(pending := None)
    case Zero(c) =>
      w.(stats := Zeroed(w.stats, c), dropped := DroppedFrom(w.dropped, c, Value(w.stats, c)))
  }

  /** No call is in progress. */
  predicate Quiescent(w: World) {
    w.receiver == Waiting && forall v | v in w.requesters :: w.requesters[v] == Idle
  }

  function After(w: World, actions: seq<Action>): World {
    if actions == [] then w else Do(After(w, actions[..|actions| - 1]), actions[|actions| - 1])
  }

  lemma {:induction false} AfterConcat(w: World, first: seq<Action>, second: seq<Action>)
    ensures After(w, first + second) == After(After(w, first), second)
  {
    if second == [] {
      assert first + second == first;
    } else {
      var last := |second| - 1;
      assert (first + second)[..|first| + last] == first + second[..last];
      AfterConcat(w, first, second[..last]);
    }
  }

  lemma AfterOne(w: World, a: Action)
    ensures After(w, [a]) == Do(w, a)
  {
    assert [a][..0] == [];
    assert After(w, []) == w;
  }

  lemma AfterNext(w: World, a: Action, rest: seq<Action>)
    ensures After(w, [a] + rest) == After(Do(w, a), rest)
  {
    AfterConcat(w, [a], rest);
    AfterOne(w, a);
  }

  lemma AfterThree(w: World, a: Action, b: Action, c: Action)
    ensures After(w, [a, b, c]) == Do(Do(Do(w, a), b), c)
  {
    AfterNext(w, a, [b, c]);
    AfterNext(Do(w, a), b, [c]);
    AfterOne(Do(Do(w, a), b), c);
    assert [a, b, c] == [a] + [b, c] && [b, c] == [b] + [c];
  }

  // ----- tickets -----

  /** The thread has a ticket that it has not handed to the radio yet. */
  predicate Carries(r: Requester) {
    r.Numbered? || r.Stamped? || r.Posted?
  }

  predicate Consuming(r: Receiver) {
    r.Cleared? || r.Counted?
  }

  predicate IsAccepted(w: World, ticket: nat) {
    exists i | 0 <= i < |w.accepted| :: w.accepted[i].ticket == ticket
  }

  /** A ticket whose fetch yields 0 is kept only when it is the second such in a row, a whole turn after the first. */
  predicate PlausibleTicket(ticket: nat) {
    0 < ticket && (ticket % U32_MODULUS == 0 ==> 2 * U32_MODULUS <= ticket)
  }

  ghost predicate RequesterSound(w: World, r: Requester) {
    && (Carries(r) ==> r.ticket <= w.fetches && PlausibleTicket(r.ticket) && r.ticket !in w.asked)
    && (Carries(r) ==> (r.ticket in w.posted <==> r.Posted?))
    && (r.Wrapped? ==> 0 < r.first <= w.fetches && r.first % U32_MODULUS == 0)
  }

  ghost predicate RequestersSound(w: World) {
    forall v | v in w.requesters :: RequesterSound(w, w.requesters[v])
  }

  /** No ticket is handed out twice. */
  ghost predicate TicketsDistinct(w: World) {
    forall u, v | u in w.requesters && v in w.requesters && u != v
                  && Carries(w.requesters[u]) && Carries(w.requesters[v]) ::
      w.requesters[u].ticket != w.requesters[v].ticket
  }

  ghost predicate PostsSound(w: World) {
    && (forall ticket :: ticket in w.posted ==> ticket <= w.fetches && PlausibleTicket(ticket))
    && (forall ticket :: ticket in w.asked ==> ticket in w.posted)
  }

  ghost predicate TicketsSound(w: World) {
    RequestersSound(w) && TicketsDistinct(w) && PostsSound(w)
  }

  /** The cell holds a ticket once posted and not consumed since. */
  ghost predicate CellSound(w: World) {
    w.pending.Some? ==>
      && w.pending.value in w.posted && !IsAccepted(w, w.pending.value)
      && (Consuming(w.receiver) ==> w.pending.value != w.receiver.ticket)
  }

  /** So does the receiver once it matched a response, and the response has the T1 of the request it answers. */
  ghost predicate ReceiverSound(w: World) {
    && (w.receiver.Matched? || Consuming(w.receiver) ==>
          && w.receiver.ticket in w.posted && !IsAccepted(w, w.receiver.ticket)
          && NumberOf(w.receiver.ticket) == NumberOf(w.receiver.origin))
    && (w.receiver.Holding? || w.receiver.Matched? || Consuming(w.receiver) ==>
          w.receiver.origin in w.asked && w.receiver.t1 == w.asked[w.receiver.origin])
  }

  ghost predicate AcceptanceSound(w: World, a: Acceptance) {
    a.ticket in w.posted && NumberOf(a.ticket) == NumberOf(a.origin) && a.origin in w.asked && a.t1 == w.asked[a.origin]
  }

  ghost predicate AcceptedSound(w: World) {
    && (forall i | 0 <= i < |w.accepted| :: AcceptanceSound(w, w.accepted[i]))
    && (forall i, j | 0 <= i < j < |w.accepted| :: w.accepted[i].ticket != w.accepted[j].ticket)
  }

  ghost predicate Sound(w: World) {
    TicketsSound(w) && CellSound(w) && ReceiverSound(w) && AcceptedSound(w)
  }

  lemma NextMultiple(first: nat, ticket: nat)
    requires 0 < first < ticket && first % U32_MODULUS == 0
    ensures PlausibleTicket(ticket)
  {
  }

  /** A thread that does nothing keeps its ticket to itself. */
  lemma BystanderKept(w: World, a: Action, v: nat)
    requires TicketsSound(w) && v in w.requesters && v in Do(w, a).requesters
    requires Do(w, a).requesters[v] == w.requesters[v]
    ensures RequesterSound(Do(w, a), w.requesters[v])
  {
    assert RequesterSound(w, w.requesters[v]);
  }

  lemma FetcherKept(w: World, a: Action)
    requires TicketsSound(w) && (a.Fetch? || a.Refetch?) && At(Do(w, a), a.v) != At(w, a.v)
    ensures RequesterSound(Do(w, a), At(Do(w, a), a.v))
  {
    assert RequesterSound(w, w.requesters[a.v]);
    if a.Refetch? {
      NextMultiple(At(w, a.v).first, w.fetches + 1);
    }
  }

  lemma CarrierKept(w: World, a: Action)
    requires TicketsSound(w) && (a.ReadClock? || a.Post?) && At(Do(w, a), a.v) != At(w, a.v)
    ensures RequesterSound(Do(w, a), At(Do(w, a), a.v))
  {
    assert RequesterSound(w, w.requesters[a.v]);
  }

  /** Any other access leaves a thread that moves without a ticket to hand over. */
  lemma MoverKept(w: World, a: Action, v: nat)
    requires v in Do(w, a).requesters && Do(w, a).requesters[v] != At(w, v)
    requires !a.Fetch? && !a.Refetch? && !a.ReadClock? && !a.Post?
    ensures RequesterSound(Do(w, a), Do(w, a).requesters[v])
  {
  }

  lemma DoKeepsRequesters(w: World, a: Action)
    requires TicketsSound(w)
    ensures RequestersSound(Do(w, a))
  {
    var w' := Do(w, a);
    forall v | v in w'.requesters ensures RequesterSound(w', w'.requesters[v]) {
      if w'.requesters[v] != At(w, v) && (a.Fetch? || a.Refetch?) {
        FetcherKept(w, a);
      } else if w'.requesters[v] != At(w, v) && (a.ReadClock? || a.Post?) {
        CarrierKept(w, a);
      } else if w'.requesters[v] != At(w, v) {
        MoverKept(w, a, v);
      } else if v in w.requesters {
        BystanderKept(w, a, v);
      }
    }
  }

  /** The thread that moves has the ticket it had, or a new one. */
  lemma TicketIsOwn(w: World, a: Action, v: nat)
    requires TicketsSound(w) && Carries(At(Do(w, a), v))
    ensures At(Do(w, a), v).ticket == w.fetches + 1 || (Carries(At(w, v)) && At(w, v).ticket == At(Do(w, a), v).ticket)
    ensures At(Do(w, a), v).ticket == w.fetches + 1 ==> (a.Fetch? || a.Refetch?) && a.v == v
  {
    if v in w.requesters {
      assert RequesterSound(w, w.requesters[v]);
    }
  }

  lemma DoKeepsDistinct(w: World, a: Action)
    requires TicketsSound(w)
    ensures TicketsDistinct(Do(w, a))
  {
    var w' := Do(w, a);
    forall u, v | u in w'.requesters && v in w'.requesters && u != v
                  && Carries(w'.requesters[u]) && Carries(w'.requesters[v])
      ensures w'.requesters[u].ticket != w'.requesters[v].ticket
    {
      TicketIsOwn(w, a, u);
      TicketIsOwn(w, a, v);
    }
  }

  lemma DoKeepsPosts(w: World, a: Action)
    requires TicketsSound(w)
    ensures PostsSound(Do(w, a))
  {
  }

  lemma DoKeepsCell(w: World, a: Action)
    requires Sound(w)
    ensures CellSound(Do(w, a))
  {
  }

  lemma DoKeepsReceiver(w: World, a: Action)
    requires Sound(w)
    ensures ReceiverSound(Do(w, a))
  {
  }

  /** What was posted, asked and accepted stays so; only Submit accepts. */
  lemma DoGrows(w: World, a: Action)
    requires TicketsSound(w)
    ensures w.posted <= Do(w, a).posted
    ensures forall ticket | ticket in w.asked :: ticket in Do(w, a).asked && Do(w, a).asked[ticket] == w.asked[ticket]
    ensures !a.Submit? ==> Do(w, a).accepted == w.accepted
  {
    if a.Send? && At(w, a.v).Posted? {
      assert RequesterSound(w, w.requesters[a.v]);
    }
  }

  lemma AcceptedKept(w: World, w': World)
    requires AcceptedSound(w) && w.posted <= w'.posted && w'.accepted == w.accepted
    requires forall ticket | ticket in w.asked :: ticket in w'.asked && w'.asked[ticket] == w.asked[ticket]
    ensures AcceptedSound(w')
  {
    forall i | 0 <= i < |w'.accepted| ensures AcceptanceSound(w', w'.accepted[i]) {
      assert AcceptanceSound(w, w.accepted[i]);
    }
  }

  lemma SubmitKeepsAccepted(w: World, a: Action)
    requires Sound(w) && a.Submit?
    ensures AcceptedSound(Do(w, a))
  {
    var w' := Do(w, a);
    forall i | 0 <= i < |w'.accepted| ensures AcceptanceSound(w', w'.accepted[i]) {
      assert i < |w.accepted| ==> w'.accepted[i] == w.accepted[i] && AcceptanceSound(w, w.accepted[i]);
    }
  }

  lemma DoKeepsAccepted(w: World, a: Action)
    requires Sound(w)
    ensures AcceptedSound(Do(w, a))
  {
    if a.Submit? {
      SubmitKeepsAccepted(w, a);
    } else {
      DoGrows(w, a);
      AcceptedKept(w, Do(w, a));
    }
  }

  lemma DoKeepsSound(w: World, a: Action)
    requires Sound(w)
    ensures Sound(Do(w, a)) && w.posted <= Do(w, a).posted
  {
    DoGrows(w, a);
    DoKeepsRequesters(w, a);
    DoKeepsDistinct(w, a);
    DoKeepsPosts(w, a);
    DoKeepsCell(w, a);
    DoKeepsReceiver(w, a);
    DoKeepsAccepted(w, a);
  }

  lemma {:induction false} AlwaysSound(actions: seq<Action>)
    ensures Sound(After(START, actions))
  {
    if actions != [] {
      AlwaysSound(actions[..|actions| - 1]);
      DoKeepsSound(After(START, actions[..|actions| - 1]), actions[|actions| - 1]);
    }
  }
}
