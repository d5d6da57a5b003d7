/**
  How often Update sends requests when several threads call it, between one initialization and the next: each reads the
  clock, loads the time of the last request, and much later stores a new one.
 */
module ClockUpdates {
  import opened RadioTypes
  import ClockSteps

  /**
    Where a thread is in Update; `known` is how many requests had been recorded when it read the clock. Once it is due
    it is in RequestSynchronization.
   */
  datatype Updater =
    | Resting
    | Ready(now: nat, known: nat)
    | Due(known: nat)
    | Stamped(time: nat, known: nat)

  /** A request time stored; `alone` if no other was stored since the thread read the clock in Update. */
  datatype Record = Record(time: nat, alone: bool)

  datatype World = World(clock: nat, last: nat, updaters: map<nat, Updater>, records: seq<Record>)

  datatype Action =
    | Tick(d: nat) | ReadClock(v: nat) | Load(v: nat) | Refuse(v: nat) | ReadAgain(v: nat) | Store(v: nat)

  // The monotonic clock is positive.
  const START := World(1, 0, map[], [])

  function At(w: World, v: nat): Updater {
    if v in w.updaters then w.updaters[v] else Resting
  }

  function Move(w: World, v: nat, u: Updater): World {
    w.(updaters := w.updaters[v := u])
  }

  /** The test of Update; the subtraction of the unsigned times wraps around. */
  predicate Elapsed(now: nat, last: nat, interval: nat) {
    last == 0 || interval <= (now - last) % 0x1_0000_0000_0000_0000
  }

  /** It is the test of the call's specification. */
  lemma ElapsedIsDue(s: ClockSteps.ClockState, now: u64)
    ensures ClockSteps.IsDue(s, now) <==>
              && s.initialized && ClockSteps.IsClientMode(s.config.mode) && s.config.intervalMilliseconds != 0
              && Elapsed(now, s.lastRequest, ClockSteps.IntervalNanoseconds(s.config))
  {
  }

  /** One access to the clock or to the time of the last request. What is not possible does nothing. */
  function Do(w: World, a: Action, interval: nat): World {
    match a
    case Tick(d) => if w.clock + d < U64_MODULUS then w.(clock := w.clock + d) else w
    case ReadClock(v) => if At(w, v) != Resting then w else Move(w, v, Ready(w.clock, |w.records|))
    case Load(v) =>
      if !At(w, v).Ready? then w
      else Move(w, v, if Elapsed(At(w, v).now, w.last, interval) then Due(At(w, v).known) else Resting)
    case Refuse(v) => if !At(w, v).Due? then w else Move(w, v, Resting)
    case ReadAgain(v) => if !At(w, v).Due? then w else Move(w, v, Stamped(w.clock, At(w, v).known))
    case Store(v) =>
      if !At(w, v).Stamped? then w
      else
        var u := At(w, v);
        Move(w, v, Resting).(last := u.time, records := w.records + [Record(u.time, u.known == |w.records|)])
  }

  function After(actions: seq<Action>, interval: nat): World {
    if actions == [] then START else Do(After(actions[..|actions| - 1], interval), actions[|actions| - 1], interval)
  }

  // ----- records made alone are an interval apart -----

  /** What a thread concluded holds as long as nobody recorded a request meanwhile. */
  ghost predicate UpdaterSound(w: World, u: Updater, interval: nat) {
    match u
    case Resting => true
    case Ready(now, known) => known <= |w.records| && now <= w.clock && (known == |w.records| ==> w.last <= now)
    case Due(known) =>
      known <= |w.records| && (known == |w.records| ==> w.last == 0 || w.last + interval <= w.clock)
    case Stamped(time, known) =>
      && known <= |w.records| && 0 < time <= w.clock
      && (known == |w.records| ==> w.last == 0 || w.last + interval <= time)
  }

  ghost predicate AloneApart(records: seq<Record>, interval: nat) {
    forall i | 0 <= i < |records| - 1 && records[i + 1].alone :: records[i].time + interval <= records[i + 1].time
  }

  ghost predicate RecordsSound(w: World, interval: nat) {
    && 0 < w.clock < U64_MODULUS && w.last <= w.clock
    && (if w.records == [] then w.last == 0 else 0 < w.last == w.records[|w.records| - 1].time)
    && AloneApart(w.records, interval)
  }

  ghost predicate Sound(w: World, interval: nat) {
    RecordsSound(w, interval) && forall v | v in w.updaters :: UpdaterSound(w, w.updaters[v], interval)
  }

  lemma ElapsedIs(now: nat, last: nat, interval: nat)
    requires last <= now < U64_MODULUS
    ensures Elapsed(now, last, interval) <==> last == 0 || last + interval <= now
  {
  }

  lemma DoKeepsUpdater(w: World, a: Action, v: nat, interval: nat)
    requires Sound(w, interval) && v in Do(w, a, interval).updaters
    ensures UpdaterSound(Do(w, a, interval), Do(w, a, interval).updaters[v], interval)
  {
    assert v in w.updaters ==> UpdaterSound(w, w.updaters[v], interval);
    if a.Load? && At(w, a.v).Ready? && w.last <= At(w, a.v).now {
      ElapsedIs(At(w, a.v).now, w.last, interval);
    }
  }

  lemma DoKeepsRecords(w: World, a: Action, interval: nat)
    requires Sound(w, interval)
    ensures RecordsSound(Do(w, a, interval), interval)
  {
    if a.Store? && At(w, a.v).Stamped? {
      assert UpdaterSound(w, w.updaters[a.v], interval);
    }
  }

  lemma DoKeepsSound(w: World, a: Action, interval: nat)
    requires Sound(w, interval)
    ensures Sound(Do(w, a, interval), interval)
  {
    DoKeepsRecords(w, a, interval);
    var w' := Do(w, a, interval);
    forall v | v in w'.updaters ensures UpdaterSound(w', w'.updaters[v], interval) {
      DoKeepsUpdater(w, a, v, interval);
    }
  }

  /**
    In every interleaving, a request is recorded an interval after the one before it, if none was recorded since its
    thread read the clock in Update.
   */
  lemma {:induction false} AlwaysAloneApart(actions: seq<Action>, interval: nat)
    ensures Sound(After(actions, interval), interval)
  {
    if actions != [] {
      AlwaysAloneApart(actions[..|actions| - 1], interval);
      DoKeepsSound(After(actions[..|actions| - 1], interval), actions[|actions| - 1], interval);
    }
  }

  // ----- how many threads may update -----

  /** Only the first `n` threads call Update. */
  predicate ByThreads(actions: seq<Action>, n: nat) {
    forall i | 0 <= i < |actions| :: actions[i].Tick? || actions[i].v < n
  }

  ghost predicate RecordsApart(w: World, interval: nat) {
    forall i | 0 <= i < |w.records| - 1 :: w.records[i].time + interval <= w.records[i + 1].time
  }

  ghost predicate AllAlone(w: World) {
    && (forall v | v in w.updaters :: v == 0)
    && (At(w, 0).Resting? || At(w, 0).known == |w.records|)
    && forall i | 0 <= i < |w.records| :: w.records[i].alone
  }

  lemma {:induction false} OneThreadIsAlone(actions: seq<Action>, interval: nat)
    requires ByThreads(actions, 1)
    ensures AllAlone(After(actions, interval))
  {
    if actions != [] {
      var last := |actions| - 1;
      OneThreadIsAlone(actions[..last], interval);
      AloneStep(After(actions[..last], interval), actions[last], interval);
    }
  }

  lemma AloneStep(w: World, a: Action, interval: nat)
    requires AllAlone(w) && (a.Tick? || a.v == 0)
    ensures AllAlone(Do(w, a, interval))
  {
  }

  /** Two threads read the clock and load the last time before either stores its own. */
  const BOTH_DUE := [
    ReadClock(0), Load(0), ReadClock(1), Load(1), ReadAgain(0), ReadAgain(1), Store(0), Store(1)]

  lemma AfterPrefix(actions: seq<Action>, k: nat, interval: nat)
    requires 0 < k <= |actions|
    ensures After(actions[..k], interval) == Do(After(actions[..k - 1], interval), actions[k - 1], interval)
  {
    assert actions[..k][..k - 1] == actions[..k - 1];
  }

  lemma BothAreDue(interval: nat)
    ensures After(BOTH_DUE[..4], interval) == World(1, 0, map[0 := Due(0), 1 := Due(0)], [])
  {
    assert After(BOTH_DUE[..0], interval) == START;
    AfterPrefix(BOTH_DUE, 1, interval);
    AfterPrefix(BOTH_DUE, 2, interval);
    assert After(BOTH_DUE[..2], interval) == World(1, 0, map[0 := Due(0)], []);
    AfterPrefix(BOTH_DUE, 3, interval);
    AfterPrefix(BOTH_DUE, 4, interval);
  }

  lemma BothAreStamped(interval: nat)
    ensures After(BOTH_DUE[..6], interval) == World(1, 0, map[0 := Stamped(1, 0), 1 := Stamped(1, 0)], [])
  {
    BothAreDue(interval);
    AfterPrefix(BOTH_DUE, 5, interval);
    AfterPrefix(BOTH_DUE, 6, interval);
  }

  lemma BothSend(interval: nat)
    ensures After(BOTH_DUE, interval).records == [Record(1, true), Record(1, false)]
  {
    BothAreStamped(interval);
    AfterPrefix(BOTH_DUE, 7, interval);
    AfterPrefix(BOTH_DUE, 8, interval);
    assert BOTH_DUE[..8] == BOTH_DUE;
  }

  /** Update keeps requests an interval apart in every run of `n` threads exactly if there is one thread at most. */
  lemma PacedIffOneThread(n: nat, interval: nat)
    requires 0 < interval
    ensures n <= 1 <==> forall actions | ByThreads(actions, n) :: RecordsApart(After(actions, interval), interval)
  {
    if n <= 1 {
      forall actions | ByThreads(actions, n) ensures RecordsApart(After(actions, interval), interval) {
        assert ByThreads(actions, 1);
        OneThreadIsAlone(actions, interval);
        AlwaysAloneApart(actions, interval);
      }
    } else {
      BothSend(interval);
      var records := After(BOTH_DUE, interval).records;
      assert records[0 + 1].time < records[0].time + interval;
      assert ByThreads(BOTH_DUE, n) && !RecordsApart(After(BOTH_DUE, interval), interval);
    }
  }
}
