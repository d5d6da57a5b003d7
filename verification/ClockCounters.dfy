/**
  What the counters say under concurrency: calls count at their beginning and at their end, and a reset of the
  statistics stores 0 in one counter after the other, with calls running in between.
 */
module ClockCounters {
  import opened RadioTypes
  import S = ClockSteps
  import opened ClockProtocol

  // ----- calls in progress -----

  function Busy(requesters: map<nat, Requester>): set<nat> {
    set v | v in requesters && requesters[v] != Idle
  }

  function One(b: bool): nat {
    if b then 1 else 0
  }

  /** Requests begun and not yet counted as sent or failed, and requests received and not yet counted as answered. */
  function RequestsInProgress(w: World): nat {
    |Busy(w.requesters)| + One(w.receiver.Serving? || w.receiver.Served?)
  }

  /** Responses counted whose verdict is not. */
  function SamplesInProgress(w: World): nat {
    One(w.receiver.Counted? || w.receiver.Judged?)
  }

  /** Packets seen and not yet counted. */
  function PacketsInProgress(w: World): nat {
    One(w.receiver.Rejecting? || w.receiver.Holding? || w.receiver.Matched? || w.receiver.Cleared?)
  }

  // ----- the sums, with what resets took out of them -----

  function Incoming(stats: S.Statistics): nat {
    stats.requestsAttempted + stats.requestsReceived
  }

  function Outgoing(stats: S.Statistics): nat {
    stats.requestsSent + stats.responsesSent + stats.sendFailures
  }

  function Verdicts(stats: S.Statistics): nat {
    stats.samplesAccepted + stats.samplesRejected
  }

  function Packets(stats: S.Statistics): nat {
    stats.ignoredFrames + stats.requestsReceived + stats.responsesReceived
  }

  ghost predicate RequestsAddUp(w: World) {
    S.SameCount(Incoming(w.stats) + w.dropped.requestsIn,
                Outgoing(w.stats) + w.dropped.requestsOut + RequestsInProgress(w))
  }

  ghost predicate SamplesAddUp(w: World) {
    S.SameCount(w.stats.responsesReceived + w.dropped.samplesIn,
              Verdicts(w.stats) + w.dropped.samplesOut + SamplesInProgress(w))
  }

  ghost predicate PacketsAddUp(w: World) {
    S.SameCount(w.seen, Packets(w.stats) + w.dropped.packets + PacketsInProgress(w))
  }

  /** What was begun is counted as done, in progress, or dropped by a reset. */
  ghost predicate AddsUp(w: World) {
    RequestsAddUp(w) && SamplesAddUp(w) && PacketsAddUp(w)
  }

  lemma BusyAfter(requesters: map<nat, Requester>, v: nat, r: Requester)
    ensures var before, after := Busy(requesters), Busy(requesters[v := r]);
            |after| == |before| - One(v in before) + One(r != Idle)
  {
    var before, after := Busy(requesters), Busy(requesters[v := r]);
    assert after == if r != Idle then before + {v} else before - {v};
  }

  /** One more on its way in, and in progress. */
  lemma EnterBoth(incoming: int, total: int, x: u64)
    requires S.SameCount(incoming, total)
    ensures S.SameCount(incoming - x + S.Count(x), total + 1)
  {
  }

  /** One more counted as done instead of in progress. */
  lemma LeaveProgress(total: int, y: u64)
    ensures S.SameCount(total - y + S.Count(y) - 1, total)
  {
  }

  lemma BothMore(x: int, y: int)
    requires S.SameCount(x, y)
    ensures S.SameCount(x + 1, y + 1)
  {
  }

  // ----- one store of a reset -----

  /** A store takes a value out of a counter and adds it to what was dropped: no sum changes. */
  lemma StoreKeepsRequests(stats: S.Statistics, d: Dropped, c: Counter)
    ensures var stats', d' := Zeroed(stats, c), DroppedFrom(d, c, Value(stats, c));
            && Incoming(stats') + d'.requestsIn == Incoming(stats) + d.requestsIn
            && Outgoing(stats') + d'.requestsOut == Outgoing(stats) + d.requestsOut
  {
  }

  lemma StoreKeepsSamples(stats: S.Statistics, d: Dropped, c: Counter)
    ensures var stats', d' := Zeroed(stats, c), DroppedFrom(d, c, Value(stats, c));
            && stats'.responsesReceived + d'.samplesIn == stats.responsesReceived + d.samplesIn
            && Verdicts(stats') + d'.samplesOut == Verdicts(stats) + d.samplesOut
  {
  }

  lemma StoreKeepsPackets(stats: S.Statistics, d: Dropped, c: Counter)
    ensures Packets(Zeroed(stats, c)) + DroppedFrom(d, c, Value(stats, c)).packets == Packets(stats) + d.packets
  {
  }

  // ----- requests -----

  lemma BeginAddsUp(w: World, a: Action)
    requires RequestsAddUp(w) && a.Begin?
    ensures RequestsAddUp(Do(w, a))
  {
    BusyAfter(w.requesters, a.v, Attempted);
    EnterBoth(Incoming(w.stats) + w.dropped.requestsIn,
              Outgoing(w.stats) + w.dropped.requestsOut + RequestsInProgress(w), w.stats.requestsAttempted);
  }

  lemma ServeAddsUp(w: World, a: Action)
    requires RequestsAddUp(w) && a.Serve?
    ensures RequestsAddUp(Do(w, a))
  {
    EnterBoth(Incoming(w.stats) + w.dropped.requestsIn,
              Outgoing(w.stats) + w.dropped.requestsOut + RequestsInProgress(w), w.stats.requestsReceived);
  }

  lemma OutcomeAddsUp(w: World, a: Action)
    requires RequestsAddUp(w) && a.CountOutcome?
    ensures RequestsAddUp(Do(w, a))
  {
    BusyAfter(w.requesters, a.v, Idle);
    LeaveProgress(Outgoing(w.stats) + w.dropped.requestsOut + RequestsInProgress(w),
                  if At(w, a.v) == Taken then w.stats.requestsSent else w.stats.sendFailures);
  }

  lemma ReplyAddsUp(w: World, a: Action)
    requires RequestsAddUp(w) && a.CountReply?
    ensures RequestsAddUp(Do(w, a))
  {
    if w.receiver.Served? {
      LeaveProgress(Outgoing(w.stats) + w.dropped.requestsOut + RequestsInProgress(w),
                    if w.receiver.taken then w.stats.responsesSent else w.stats.sendFailures);
    }
  }

  /** The other accesses count no request, and begin and end no call. */
  predicate CountsNoRequest(a: Action) {
    !a.Begin? && !a.CountOutcome? && !a.Serve? && !a.CountReply? && !a.Zero?
  }

  lemma StepCountsNothing(w: World, a: Action)
    requires CountsNoRequest(a)
    ensures var w' := Do(w, a);
            && Incoming(w'.stats) == Incoming(w.stats) && Outgoing(w'.stats) == Outgoing(w.stats)
            && w'.dropped == w.dropped
  {
  }

  lemma StepKeepsProgress(w: World, a: Action)
    requires CountsNoRequest(a)
    ensures RequestsInProgress(Do(w, a)) == RequestsInProgress(w)
  {
    var w' := Do(w, a);
    if w'.requesters != w.requesters {
      BusyAfter(w.requesters, a.v, w'.requesters[a.v]);
    }
  }

  lemma StepAddsUp(w: World, a: Action)
    requires RequestsAddUp(w) && CountsNoRequest(a)
    ensures RequestsAddUp(Do(w, a))
  {
    StepCountsNothing(w, a);
    StepKeepsProgress(w, a);
  }

  lemma DoKeepsRequestCount(w: World, a: Action)
    requires RequestsAddUp(w)
    ensures RequestsAddUp(Do(w, a))
  {
    if a.Begin? {
      BeginAddsUp(w, a);
    } else if a.CountOutcome? {
      OutcomeAddsUp(w, a);
    } else if a.Serve? {
      ServeAddsUp(w, a);
    } else if a.CountReply? {
      ReplyAddsUp(w, a);
    } else if a.Zero? {
      StoreKeepsRequests(w.stats, w.dropped, a.counter);
    } else {
      StepAddsUp(w, a);
    }
  }

  // ----- samples -----

  lemma ResponseAddsUp(w: World, a: Action)
    requires SamplesAddUp(w) && a.CountResponse?
    ensures SamplesAddUp(Do(w, a))
  {
    EnterBoth(w.stats.responsesReceived + w.dropped.samplesIn,
              Verdicts(w.stats) + w.dropped.samplesOut + SamplesInProgress(w), w.stats.responsesReceived);
  }

  lemma VerdictAddsUp(w: World, a: Action)
    requires SamplesAddUp(w) && a.CountVerdict?
    ensures SamplesAddUp(Do(w, a))
  {
    if w.receiver.Judged? {
      LeaveProgress(Verdicts(w.stats) + w.dropped.samplesOut + SamplesInProgress(w),
                    if w.receiver.good then w.stats.samplesAccepted else w.stats.samplesRejected);
    }
  }

  lemma DoKeepsSampleCount(w: World, a: Action)
    requires SamplesAddUp(w)
    ensures SamplesAddUp(Do(w, a))
  {
    if a.CountResponse? {
      ResponseAddsUp(w, a);
    } else if a.CountVerdict? {
      VerdictAddsUp(w, a);
    } else if a.Zero? {
      StoreKeepsSamples(w.stats, w.dropped, a.counter);
    }
  }

  // ----- packets -----

  lemma SightAddsUp(w: World, a: Action)
    requires PacketsAddUp(w) && (a.Arrive? || a.Reject?)
    ensures PacketsAddUp(Do(w, a))
  {
    BothMore(w.seen, Packets(w.stats) + w.dropped.packets + PacketsInProgress(w));
  }

  lemma RequestSightAddsUp(w: World, a: Action)
    requires PacketsAddUp(w) && a.Serve?
    ensures PacketsAddUp(Do(w, a))
  {
    EnterBoth(Packets(w.stats) + w.dropped.packets + PacketsInProgress(w), w.seen, w.stats.requestsReceived);
  }

  lemma CountingAddsUp(w: World, a: Action)
    requires PacketsAddUp(w) && (a.CountResponse? || a.CountIgnored?)
    ensures PacketsAddUp(Do(w, a))
  {
    LeaveProgress(Packets(w.stats) + w.dropped.packets + PacketsInProgress(w),
                  if a.CountResponse? then w.stats.responsesReceived else w.stats.ignoredFrames);
  }

  lemma DoKeepsPacketCount(w: World, a: Action)
    requires PacketsAddUp(w)
    ensures PacketsAddUp(Do(w, a))
  {
    if a.Arrive? || a.Reject? {
      SightAddsUp(w, a);
    } else if a.Serve? {
      RequestSightAddsUp(w, a);
    } else if a.CountResponse? || a.CountIgnored? {
      CountingAddsUp(w, a);
    } else if a.Zero? {
      StoreKeepsPackets(w.stats, w.dropped, a.counter);
    }
  }

  // ----- every run -----

  lemma DoAddsUp(w: World, a: Action)
    requires AddsUp(w)
    ensures AddsUp(Do(w, a))
  {
    DoKeepsRequestCount(w, a);
    DoKeepsSampleCount(w, a);
    DoKeepsPacketCount(w, a);
  }

  lemma NothingCounted(stats: S.Statistics)
    requires stats == S.NO_STATISTICS
    ensures Incoming(stats) <= 0 && Outgoing(stats) <= 0
  {
  }

  lemma NothingSeen(stats: S.Statistics)
    requires stats == S.NO_STATISTICS
    ensures Packets(stats) <= 0
  {
  }

  lemma NobodyInProgress(w: World)
    requires w.requesters == map[] && w.receiver == Waiting
    ensures RequestsInProgress(w) <= 0
  {
    assert Busy(w.requesters) == {};
  }

  lemma NoRequestsAddUp(w: World)
    requires Incoming(w.stats) <= 0 && Outgoing(w.stats) <= 0 && RequestsInProgress(w) <= 0
    requires w.dropped.requestsIn <= 0 && w.dropped.requestsOut <= 0
    ensures RequestsAddUp(w)
  {
  }

  lemma NoPacketsAddUp(w: World)
    requires Packets(w.stats) <= 0 && w.seen <= 0 && w.dropped.packets <= 0 && PacketsInProgress(w) <= 0
    ensures PacketsAddUp(w)
  {
  }

  lemma StartAddsUp()
    ensures RequestsAddUp(START) && SamplesAddUp(START) && PacketsAddUp(START)
  {
    NothingCounted(START.stats);
    NothingSeen(START.stats);
    NobodyInProgress(START);
    NoRequestsAddUp(START);
    NoPacketsAddUp(START);
  }

  /** In every interleaving, every sum is off by the calls in progress and by what resets dropped. */
  lemma {:induction false} AlwaysAddsUp(actions: seq<Action>)
    ensures AddsUp(After(START, actions))
  {
    if actions == [] {
      StartAddsUp();
    } else {
      var before, a := After(START, actions[..|actions| - 1]), actions[|actions| - 1];
      AlwaysAddsUp(actions[..|actions| - 1]);
      DoAddsUp(before, a);
    }
  }

  // ----- when no call is in progress -----

  lemma OffBy(x: nat, dx: nat, y: nat, dy: nat)
    requires S.SameCount(x + dx, y + dy)
    ensures S.SameCount(x, y) <==> S.SameCount(dx, dy)
  {
  }

  lemma QuietAddsUp(w: World)
    requires Quiescent(w) && AddsUp(w)
    ensures S.SameCount(Incoming(w.stats) + w.dropped.requestsIn, Outgoing(w.stats) + w.dropped.requestsOut)
    ensures S.SameCount(w.stats.responsesReceived + w.dropped.samplesIn, Verdicts(w.stats) + w.dropped.samplesOut)
    ensures S.SameCount(w.seen, Packets(w.stats) + w.dropped.packets)
  {
    assert Busy(w.requesters) == {};
    assert RequestsInProgress(w) == 0;
  }

  lemma QuietBalance(w: World)
    requires Quiescent(w) && AddsUp(w)
    ensures S.RequestsBalance(w.stats) <==> S.SameCount(w.dropped.requestsIn, w.dropped.requestsOut)
    ensures S.SamplesBalance(w.stats) <==> S.SameCount(w.dropped.samplesIn, w.dropped.samplesOut)
    ensures S.SameCount(w.seen, Packets(w.stats) + w.dropped.packets)
  {
    QuietAddsUp(w);
    OffBy(Incoming(w.stats), w.dropped.requestsIn, Outgoing(w.stats), w.dropped.requestsOut);
    OffBy(w.stats.responsesReceived, w.dropped.samplesIn, Verdicts(w.stats), w.dropped.samplesOut);
  }

  /**
    Whenever no call is in progress, however the calls and the stores of resets before were interleaved: requests
    balance exactly if resets dropped as many beginnings as outcomes, and likewise samples, up to the counters' wrap-
    around; and the packets counted and dropped are those seen.
   */
  lemma CountersAddUp(actions: seq<Action>)
    requires Quiescent(After(START, actions))
    ensures var w := After(START, actions);
            && (S.RequestsBalance(w.stats) <==> S.SameCount(w.dropped.requestsIn, w.dropped.requestsOut))
            && (S.SamplesBalance(w.stats) <==> S.SameCount(w.dropped.samplesIn, w.dropped.samplesOut))
            && S.SameCount(w.seen, Packets(w.stats) + w.dropped.packets)
  {
    AlwaysAddsUp(actions);
    QuietBalance(After(START, actions));
  }

  // ----- resets during which no call is in progress -----

  /** Some action of `actions[lo..hi]` stores 0 in the counter. */
  ghost predicate StoredIn(actions: seq<Action>, c: Counter, lo: nat, hi: nat)
    requires hi <= |actions|
  {
    exists k :: lo <= k < hi && actions[k] == Zero(c)
  }

  /** No call is in progress in the states from `lo` to `hi`. */
  ghost predicate QuietFrom(actions: seq<Action>, lo: nat, hi: nat)
    requires lo <= hi <= |actions|
    decreases hi
  {
    Quiescent(After(START, actions[..hi])) && (lo < hi ==> QuietFrom(actions, lo, hi - 1))
  }

  /** From state `lo` to state `hi` no call is in progress and every counter is reset; none is from then on. */
  ghost predicate QuietReset(actions: seq<Action>, lo: nat, hi: nat) {
    && lo <= hi <= |actions| && QuietFrom(actions, lo, hi)
    && (forall c :: StoredIn(actions, c, lo, hi))
    && (forall k :: hi <= k < |actions| ==> !actions[k].Zero?)
  }

  lemma AfterPrefix(actions: seq<Action>, k: nat)
    requires 0 < k <= |actions|
    ensures After(START, actions[..k]) == Do(After(START, actions[..k - 1]), actions[k - 1])
  {
    assert actions[..k][..k - 1] == actions[..k - 1];
  }

  lemma QuietStep(w: World, a: Action)
    requires Quiescent(w) && Quiescent(Do(w, a))
    ensures Do(w, a).stats == if a.Zero? then Zeroed(w.stats, a.counter) else w.stats
  {
    if a.Begin? || a.CountOutcome? {
      QuietIsIdle(w, a.v);
      QuietIsIdle(Do(w, a), a.v);
    }
  }

  lemma QuietIsIdle(w: World, v: nat)
    requires Quiescent(w)
    ensures At(w, v) == Idle
  {
  }

  lemma ZeroedValue(stats: S.Statistics, c: Counter, d: Counter)
    ensures Value(Zeroed(stats, c), d) == if c == d then 0 else Value(stats, d)
  {
  }

  lemma QuietValue(w: World, a: Action, c: Counter)
    requires Quiescent(w) && Quiescent(Do(w, a))
    ensures Value(Do(w, a).stats, c) == if a == Zero(c) then 0 else Value(w.stats, c)
  {
    QuietStep(w, a);
    if a.Zero? {
      ZeroedValue(w.stats, a.counter, c);
    }
  }

  lemma QuietlyNext(actions: seq<Action>, lo: nat, hi: nat, c: Counter)
    requires lo < hi <= |actions| && QuietFrom(actions, lo, hi)
    ensures QuietFrom(actions, lo, hi - 1)
    ensures Value(After(START, actions[..hi]).stats, c) ==
            if actions[hi - 1] == Zero(c) then 0 else Value(After(START, actions[..hi - 1]).stats, c)
  {
    var w, a := After(START, actions[..hi - 1]), actions[hi - 1];
    AfterPrefix(actions, hi);
    assert QuietFrom(actions, lo, hi - 1);
    QuietValue(w, a, c);
  }

  /** A counter stays 0 from its store on. */
  lemma {:induction false} QuietlyZero(actions: seq<Action>, c: Counter, lo: nat, k: nat, hi: nat)
    requires lo <= k < hi <= |actions| && actions[k] == Zero(c) && QuietFrom(actions, lo, hi)
    ensures Value(After(START, actions[..hi]).stats, c) == 0
    decreases hi
  {
    QuietlyNext(actions, lo, hi, c);
    if k < hi - 1 {
      QuietlyZero(actions, c, lo, k, hi - 1);
    }
  }

  lemma StoredIsZero(actions: seq<Action>, c: Counter, lo: nat, hi: nat)
    requires lo <= hi <= |actions| && StoredIn(actions, c, lo, hi) && QuietFrom(actions, lo, hi)
    ensures Value(After(START, actions[..hi]).stats, c) == 0
  {
    var k :| lo <= k < hi && actions[k] == Zero(c);
    QuietlyZero(actions, c, lo, k, hi);
  }

  lemma DroppedKept(w: World, a: Action)
    requires !a.Zero?
    ensures Do(w, a).dropped == w.dropped
  {
  }

  lemma {:induction false} DroppedSince(actions: seq<Action>, hi: nat, k: nat)
    requires hi <= k <= |actions| && forall i :: hi <= i < |actions| ==> !actions[i].Zero?
    ensures After(START, actions[..k]).dropped == After(START, actions[..hi]).dropped
    decreases k
  {
    if hi < k {
      AfterPrefix(actions, k);
      DroppedSince(actions, hi, k - 1);
      DroppedKept(After(START, actions[..k - 1]), actions[k - 1]);
    }
  }

  lemma DroppedKeptSince(actions: seq<Action>, hi: nat)
    requires hi <= |actions| && forall i :: hi <= i < |actions| ==> !actions[i].Zero?
    ensures After(START, actions).dropped == After(START, actions[..hi]).dropped
  {
    DroppedSince(actions, hi, |actions|);
    assert actions[..|actions|] == actions;
  }

  /** No call is counted. */
  predicate Clear(stats: S.Statistics) {
    && Incoming(stats) <= 0 && Outgoing(stats) <= 0
    && stats.responsesReceived <= 0 && Verdicts(stats) <= 0 && Packets(stats) <= 0
  }

  lemma AllZero(stats: S.Statistics)
    requires forall c: Counter :: Value(stats, c) == 0
    ensures stats == S.NO_STATISTICS
  {
    assert Value(stats, RequestsAttempted) == Value(stats, RequestsSent) == Value(stats, RequestsReceived) == 0;
    assert Value(stats, ResponsesSent) == Value(stats, ResponsesReceived) == Value(stats, SendFailures) == 0;
    assert Value(stats, IgnoredFrames) == Value(stats, SamplesAccepted) == Value(stats, SamplesRejected) == 0;
    assert Value(stats, TimestampFallbacks) == 0;
  }

  lemma ClearIfAllZero(stats: S.Statistics)
    requires forall c: Counter :: Value(stats, c) == 0
    ensures Clear(stats)
  {
    AllZero(stats);
  }

  lemma ResetClears(actions: seq<Action>, lo: nat, hi: nat)
    requires QuietReset(actions, lo, hi)
    ensures Clear(After(START, actions[..hi]).stats)
  {
    var stats := After(START, actions[..hi]).stats;
    forall c: Counter ensures Value(stats, c) == 0 {
      StoredIsZero(actions, c, lo, hi);
    }
    ClearIfAllZero(stats);
  }

  /** The counters balance, and account for the packets seen since there were `since`. */
  ghost predicate BalancesSince(w: World, since: nat) {
    && S.RequestsBalance(w.stats) && S.SamplesBalance(w.stats)
    && since <= w.seen && S.SameCount(w.seen - since, Packets(w.stats))
  }

  /** A reset that leaves no count dropped as much on either side. */
  lemma FairReset(w: World)
    requires Quiescent(w) && AddsUp(w) && Clear(w.stats)
    ensures S.SameCount(w.dropped.requestsIn, w.dropped.requestsOut)
    ensures S.SameCount(w.dropped.samplesIn, w.dropped.samplesOut)
    ensures S.SameCount(w.seen, w.dropped.packets)
  {
    QuietAddsUp(w);
  }

  lemma BalanceSinceReset(w0: World, w: World)
    requires w.dropped == w0.dropped && w0.seen <= w.seen && Quiescent(w) && AddsUp(w)
    requires S.SameCount(w0.dropped.requestsIn, w0.dropped.requestsOut)
    requires S.SameCount(w0.dropped.samplesIn, w0.dropped.samplesOut)
    requires S.SameCount(w0.seen, w0.dropped.packets)
    ensures BalancesSince(w, w0.seen)
  {
    QuietBalance(w);
    SeenSinceReset(w0.seen, w.seen, Packets(w.stats), w.dropped.packets);
  }

  lemma SeenSinceReset(before: nat, seen: nat, packets: nat, dropped: nat)
    requires before <= seen && S.SameCount(before, dropped) && S.SameCount(seen, packets + dropped)
    ensures S.SameCount(seen - before, packets)
  {
  }

  lemma {:induction false} SeenGrows(actions: seq<Action>, hi: nat)
    requires hi <= |actions|
    ensures After(START, actions[..hi]).seen <= After(START, actions).seen
    decreases |actions|
  {
    if hi < |actions| {
      var last := |actions| - 1;
      assert actions[..last][..hi] == actions[..hi];
      SeenGrows(actions[..last], hi);
      SeenStep(After(START, actions[..last]), actions[last]);
    } else {
      assert actions[..hi] == actions;
    }
  }

  lemma SeenStep(w: World, a: Action)
    ensures w.seen <= Do(w, a).seen
  {
  }

  /**
    What a caller can see to: if no call is in progress from the first store of the last reset to its last store, the
    counters balance whenever no call is in progress, and account for the packets seen since.
   */
  lemma QuietResetAddsUp(actions: seq<Action>, lo: nat, hi: nat)
    requires QuietReset(actions, lo, hi) && Quiescent(After(START, actions))
    ensures BalancesSince(After(START, actions), After(START, actions[..hi]).seen)
  {
    var w0, w := After(START, actions[..hi]), After(START, actions);
    ResetClears(actions, lo, hi);
    DroppedKeptSince(actions, hi);
    AlwaysAddsUp(actions[..hi]);
    AlwaysAddsUp(actions);
    FairReset(w0);
    SeenGrows(actions, hi);
    BalanceSinceReset(w0, w);
  }

  /** Without any reset they always do. */
  lemma NeverResetAddsUp(actions: seq<Action>)
    requires Quiescent(After(START, actions)) && forall k :: 0 <= k < |actions| ==> !actions[k].Zero?
    ensures BalancesSince(After(START, actions), 0)
  {
    var w := After(START, actions);
    DroppedKeptSince(actions, 0);
    assert After(START, actions[..0]) == START;
    AlwaysAddsUp(actions);
    BalanceSinceReset(START, w);
  }

  // ----- resets during calls -----

  // The order of the stores of a reset.
  const RESET_ORDER := [
    RequestsAttempted, RequestsSent, RequestsReceived, ResponsesSent, ResponsesReceived,
    SendFailures, IgnoredFrames, SamplesAccepted, SamplesRejected, TimestampFallbacks]

  function Stores(counters: seq<Counter>): seq<Action> {
    seq(|counters|, (i: nat) requires i < |counters| => Zero(counters[i]))
  }

  lemma {:induction false} AfterStores(w: World, counters: seq<Counter>)
    ensures var w' := After(w, Stores(counters));
            && w'.requesters == w.requesters && w'.receiver == w.receiver
            && w'.fetches == w.fetches && w'.pending == w.pending
            && forall c: Counter :: Value(w'.stats, c) == if c in counters then 0 else Value(w.stats, c)
  {
    if counters != [] {
      var last := |counters| - 1;
      var rest, c0 := counters[..last], counters[last];
      AfterStores(w, rest);
      assert Stores(counters)[..last] == Stores(rest) && counters == rest + [c0];
      forall c: Counter
        ensures Value(After(w, Stores(counters)).stats, c) == if c in counters then 0 else Value(w.stats, c)
      {
        ZeroedValue(After(w, Stores(rest)).stats, c0, c);
      }
    }
  }

  /** A whole reset leaves no count. */
  lemma AfterReset(w: World)
    ensures After(w, Stores(RESET_ORDER)).stats == S.NO_STATISTICS
  {
    AfterStores(w, RESET_ORDER);
    AllZero(After(w, Stores(RESET_ORDER)).stats);
  }

  /** A request that is turned away. */
  const FAILED_REQUEST := [Begin(0), Decline(0), CountOutcome(0)]

  lemma AfterFailedRequest(w: World)
    requires At(w, 0) == Idle
    ensures var w' := After(w, FAILED_REQUEST);
            && w'.requesters == w.requesters[0 := Idle] && w'.receiver == w.receiver
            && w'.stats == S.CountRequest(w.stats, false)
  {
    AfterThree(w, Begin(0), Decline(0), CountOutcome(0));
    var w2 := Do(Do(w, Begin(0)), Decline(0));
    assert w2.requesters[0 := Idle] == w.requesters[0 := Idle];
  }

  /** The value each counter has in the end says whether requests balance. */
  lemma Balance(stats: S.Statistics, attempted: u64, failed: u64)
    requires Value(stats, RequestsAttempted) == attempted && Value(stats, SendFailures) == failed
    requires Value(stats, RequestsReceived) == Value(stats, RequestsSent) == Value(stats, ResponsesSent) == 0
    ensures S.RequestsBalance(stats) <==> attempted == failed
  {
  }

  lemma FirstStore(w: World)
    ensures var w' := After(w, Stores(RESET_ORDER[..1]));
            w'.requesters == w.requesters && w'.receiver == w.receiver && Value(w'.stats, RequestsAttempted) == 0
  {
    AfterStores(w, RESET_ORDER[..1]);
  }

  lemma OtherStores(w: World)
    ensures var w' := After(w, Stores(RESET_ORDER[1..]));
            && w'.requesters == w.requesters && w'.receiver == w.receiver
            && (S.RequestsBalance(w'.stats) <==> Value(w.stats, RequestsAttempted) == 0)
  {
    var w', rest := After(w, Stores(RESET_ORDER[1..])), RESET_ORDER[1..];
    AfterStores(w, rest);
    assert RequestsSent == rest[0] && RequestsReceived == rest[1];
    assert ResponsesSent == rest[2] && SendFailures == rest[4];
    Balance(w'.stats, Value(w.stats, RequestsAttempted), 0);
  }

  /**
    A reset of which neither the first store nor the last finds a call in progress, but a request is made between them:
    its beginning is counted, its failure is not.
   */
  lemma CallBetweenStores()
    ensures var w := After(START, Stores(RESET_ORDER[..1]) + (FAILED_REQUEST + Stores(RESET_ORDER[1..])));
            Quiescent(w) && !S.RequestsBalance(w.stats)
  {
    var w1 := After(START, Stores(RESET_ORDER[..1]));
    var w2 := After(w1, FAILED_REQUEST);
    AfterConcat(START, Stores(RESET_ORDER[..1]), FAILED_REQUEST + Stores(RESET_ORDER[1..]));
    AfterConcat(w1, FAILED_REQUEST, Stores(RESET_ORDER[1..]));
    FirstStore(START);
    AfterFailedRequest(w1);
    OtherStores(w2);
  }

  /**
    A reset that begins during a request and balances all the same: it drops the request's beginning and its failure.
   */
  lemma ResetAroundOutcome()
    ensures var w := After(START, [Begin(0)] + (Stores(RESET_ORDER[..1]) +
                                  ([Decline(0), CountOutcome(0)] + Stores(RESET_ORDER[1..]))));
            Quiescent(w) && S.RequestsBalance(w.stats)
  {
    var outcome := [Decline(0), CountOutcome(0)];
    var w1 := Do(START, Begin(0));
    var w2 := After(w1, Stores(RESET_ORDER[..1]));
    var w3 := After(w2, outcome);
    AfterNext(START, Begin(0), Stores(RESET_ORDER[..1]) + (outcome + Stores(RESET_ORDER[1..])));
    AfterConcat(w1, Stores(RESET_ORDER[..1]), outcome + Stores(RESET_ORDER[1..]));
    AfterConcat(w2, outcome, Stores(RESET_ORDER[1..]));
    FirstStore(w1);
    AfterOutcome(w2);
    OtherStores(w3);
  }

  lemma AfterOutcome(w: World)
    requires At(w, 0) == Attempted
    ensures var w' := After(w, [Decline(0), CountOutcome(0)]);
            && w'.requesters == w.requesters[0 := Idle] && w'.receiver == w.receiver
            && w'.stats == w.stats.(sendFailures := S.Count(w.stats.sendFailures))
  {
    AfterNext(w, Decline(0), [CountOutcome(0)]);
    AfterOne(Do(w, Decline(0)), CountOutcome(0));
    assert [Decline(0), CountOutcome(0)] == [Decline(0)] + [CountOutcome(0)];
    assert Do(w, Decline(0)).requesters[0 := Idle] == w.requesters[0 := Idle];
  }

  /** A reset within a request: the request's beginning is dropped, its failure is counted. */
  lemma ResetDuringCall()
    ensures var w := After(START, [Begin(0)] + (Stores(RESET_ORDER) + [Decline(0), CountOutcome(0)]));
            Quiescent(w) && !S.RequestsBalance(w.stats)
  {
    var outcome := [Decline(0), CountOutcome(0)];
    var w1 := Do(START, Begin(0));
    var w2 := After(w1, Stores(RESET_ORDER));
    AfterNext(START, Begin(0), Stores(RESET_ORDER) + outcome);
    AfterConcat(w1, Stores(RESET_ORDER), outcome);
    AfterStores(w1, RESET_ORDER);
    AfterReset(w1);
    AfterOutcome(w2);
    Balance(After(w2, outcome).stats, 0, 1);
  }
}
