/** How often Update sends requests, over every run between one initialization and the next. */
module ClockPacing {
  import opened RadioTypes
  import opened ClockSteps

  /** The call gets as far as the radio; only such calls record a request time. */
  predicate Records(s: ClockState, link: Link, e: ClockEvent) {
    e.UpdateCall? && IsDue(s, e.now) && RequestRefusal(s, link, e.started).None?
  }

  /** The recorded request times of a run. */
  function Times(s: ClockState, link: Link, events: seq<ClockEvent>): seq<u64> {
    if events == [] then []
    else
      var rest, e := events[..|events| - 1], events[|events| - 1];
      if Records(After(s, link, rest), link, e) then Times(s, link, rest) + [e.stamp] else Times(s, link, rest)
  }

  /** Nothing but Update asks for requests, and nothing restarts the synchronizer. */
  ghost predicate Epoch(events: seq<ClockEvent>) {
    forall e :: e in events ==> e.UpdateCall? || e.PacketCall? || e.ResetStatisticsCall?
  }

  /**
    The monotonic clock is positive and does not run backwards: `now` is read before `stamp` in one call, and both
    before those of later calls.
   */
  ghost predicate Clocked(events: seq<ClockEvent>) {
    && (forall e :: e in events && e.UpdateCall? ==> 0 < e.now <= e.stamp)
    && (forall i, j | 0 <= i < j < |events| && events[i].UpdateCall? && events[j].UpdateCall? ::
          events[i].stamp <= events[j].now)
  }

  ghost predicate Apart(times: seq<u64>, interval: nat) {
    forall i | 0 <= i < |times| - 1 :: times[i] + interval <= times[i + 1]
  }

  /** `time` was read from the clock when one of the calls was to send. */
  ghost predicate ReadIn(events: seq<ClockEvent>, time: u64) {
    exists i :: 0 <= i < |events| && events[i].UpdateCall? && events[i].stamp == time
  }

  /** What the state remembers of the recorded times. */
  ghost predicate Remembers(s: ClockState, config: Config, times: seq<u64>) {
    s.config == config && s.initialized && s.lastRequest == if times == [] then 0 else times[|times| - 1]
  }

  /**
    Recorded times are an interval apart, the last of them is what the synchronizer remembers, and it is past: in every
    Update the clock reading minus it is their true distance, so the unsigned subtraction never wraps.
   */
  lemma {:induction false} Paced(s: ClockState, link: Link, events: seq<ClockEvent>)
    requires s.initialized && s.lastRequest == 0 && Epoch(events) && Clocked(events)
    ensures Remembers(After(s, link, events), s.config, Times(s, link, events))
    ensures Apart(Times(s, link, events), IntervalNanoseconds(s.config))
    ensures forall time :: time in Times(s, link, events) ==> ReadIn(events, time)
  {
    if events != [] {
      var n := |events| - 1;
      var rest, e := events[..n], events[n];
      var before, times := After(s, link, rest), Times(s, link, rest);
      Prefix(events, n);
      Paced(s, link, rest);
      StepRemembers(before, link, e);
      StillRead(events, n, times);
      LastIsPast(events, n, times);
      if Records(before, link, e) {
        DueAfterInterval(before, e.now);
        assert events[n].stamp == e.stamp;
      }
    }
  }

  lemma StepRemembers(s: ClockState, link: Link, e: ClockEvent)
    requires s.initialized && (e.UpdateCall? || e.PacketCall? || e.ResetStatisticsCall?)
    ensures var after := Next(s, link, e);
            && after.config == s.config && after.initialized
            && after.lastRequest == if Records(s, link, e) then e.stamp else s.lastRequest
  {
  }

  lemma DueAfterInterval(s: ClockState, now: u64)
    requires IsDue(s, now) && s.lastRequest <= now
    ensures s.lastRequest == 0 || s.lastRequest + IntervalNanoseconds(s.config) <= now
  {
  }

  lemma StillRead(events: seq<ClockEvent>, n: nat, times: seq<u64>)
    requires n <= |events| && forall time :: time in times ==> ReadIn(events[..n], time)
    ensures forall time :: time in times ==> ReadIn(events, time)
  {
    forall time | time in times ensures ReadIn(events, time) {
      var i :| 0 <= i < n && events[..n][i].UpdateCall? && events[..n][i].stamp == time;
      assert events[i] == events[..n][i];
    }
  }

  lemma Prefix(events: seq<ClockEvent>, n: nat)
    requires n <= |events| && Epoch(events) && Clocked(events)
    ensures Epoch(events[..n]) && Clocked(events[..n])
  {
    assert forall e :: e in events[..n] ==> e in events;
  }

  lemma LastIsPast(events: seq<ClockEvent>, n: nat, times: seq<u64>)
    requires n < |events| && Clocked(events) && forall time :: time in times ==> ReadIn(events[..n], time)
    ensures events[n].UpdateCall? && times != [] ==> 0 < times[|times| - 1] <= events[n].now
  {
    if times != [] {
      assert times[|times| - 1] in times;
      var i :| 0 <= i < n && events[..n][i].UpdateCall? && events[..n][i].stamp == times[|times| - 1];
      assert events[i] == events[..n][i] && events[i] in events;
    }
  }

  /** No Update of such a run subtracts a later time from an earlier one. */
  lemma NoUnderflow(s: ClockState, link: Link, events: seq<ClockEvent>, n: nat)
    requires s.initialized && s.lastRequest == 0 && Epoch(events) && Clocked(events)
    requires n < |events| && events[n].UpdateCall?
    ensures After(s, link, events[..n]).lastRequest <= events[n].now
  {
    Prefix(events, n);
    Paced(s, link, events[..n]);
    LastIsPast(events, n, Times(s, link, events[..n]));
    assert events[n] in events;
  }

  /** `b - a + 1` requests take at least `b - a` intervals. */
  lemma {:induction false} RateBound(s: ClockState, link: Link, events: seq<ClockEvent>, a: nat, b: nat)
    requires s.initialized && s.lastRequest == 0 && Epoch(events) && Clocked(events)
    requires a <= b < |Times(s, link, events)|
    ensures var times := Times(s, link, events);
            times[b] - times[a] >= (b - a) * (s.config.intervalMilliseconds * 1_000_000)
  {
    Paced(s, link, events);
    Spread(Times(s, link, events), IntervalNanoseconds(s.config), a, b);
  }

  lemma {:induction false} Spread(times: seq<u64>, interval: nat, a: nat, b: nat)
    requires Apart(times, interval) && a <= b < |times|
    ensures times[b] - times[a] >= (b - a) * interval
    decreases b - a
  {
    if a != b {
      Spread(times, interval, a, b - 1);
      assert times[b - 1] + interval <= times[b - 1 + 1];
      assert (b - a) * interval == (b - 1 - a) * interval + interval;
    }
  }

  lemma Elapsed(now: u64, last: u64)
    requires last <= now
    ensures (now - last) % U64_MODULUS == now - last
  {
  }

  /**
    A request is due exactly if an initialized client with an interval has no request to remember, or its last one lies
    that many milliseconds back.
   */
  lemma DueIs(s: ClockState, now: u64)
    requires s.lastRequest <= now
    ensures IsDue(s, now) <==>
              && s.initialized && (s.config.mode == Client || s.config.mode == ClientAndReference)
              && s.config.intervalMilliseconds != 0
              && (s.lastRequest == 0 || s.lastRequest + s.config.intervalMilliseconds * 1_000_000 <= now)
  {
    Elapsed(now, s.lastRequest);
  }

  /**
    A request that got as far as the radio uses up the interval, whether or not the radio took it; one refused before
    that does not, and the next Update tries again.
   */
  lemma RefusedStaysDue(s: ClockState, link: Link, started: bool, now: u64, stamp: u64, taken: bool, later: u64)
    requires IsDue(s, now) && s.lastRequest <= now <= stamp <= later && 0 < stamp
    ensures var after := Next(s, link, UpdateCall(now, started, stamp, taken));
            IsDue(after, later) <==>
              RequestRefusal(s, link, started).Some? || stamp + s.config.intervalMilliseconds * 1_000_000 <= later
  {
    Elapsed(now, s.lastRequest);
    Elapsed(later, s.lastRequest);
    Elapsed(later, stamp);
  }
}
