/** What one node's table does over whole runs of packets and stops. */
module ReassemblyRuns {
  import opened RadioTypes
  import opened TransportWire
  import opened RecentRing
  import opened Reassembly

  datatype Event = Packet(data: bytes) | Stop

  ghost predicate Step(t: Table, local: u16, e: Event, t': Table, out: Outcome) {
    Valid(t) &&
    match e
    case Packet(data) => Arrival(t, local, data, t', out)
    case Stop => t' == Stopped(t) && out == Nothing
  }

  /** `tables[i]` is the state before event `i`, and `outs[i]` what that event brought about. */
  datatype Run = Run(local: u16, tables: seq<Table>, events: seq<Event>, outs: seq<Outcome>) {
    ghost predicate Steps() {
      && |tables| == |events| + 1 && |outs| == |events|
      && Valid(tables[0])
      && forall i {:trigger events[i]} :: 0 <= i < |events| ==>
           Step(tables[i], local, events[i], tables[i + 1], outs[i])
    }

    predicate CompletesAt(i: nat, id: Identity)
      requires i < |outs|
    {
      Completes(outs[i], id)
    }
  }

  lemma StepKeepsValid(t: Table, local: u16, e: Event, t': Table, out: Outcome)
    requires Step(t, local, e, t', out)
    ensures Valid(t')
  {
    if e.Packet? {
      var victim :| MayEvict(t, victim) && Receive(t, local, e.data, victim) == (t', out);
      ReceiveKeepsValid(t, local, e.data, victim);
    }
  }

  lemma {:induction false} RunKeepsValid(r: Run, i: nat)
    requires r.Steps() && i <= |r.events|
    ensures Valid(r.tables[i])
  {
    if i != 0 {
      StepKeepsValid(r.tables[i - 1], r.local, r.events[i - 1], r.tables[i], r.outs[i - 1]);
    }
  }

  // ----- at most once within the window -----

  lemma StepCompletes(t: Table, local: u16, e: Event, t': Table, out: Outcome)
    requires Step(t, local, e, t', out)
    ensures t'.completed == t.completed + if out.Completed? then [out.message.id] else []
    ensures out.Completed? ==> !Recent(t, out.message.id)
  {
    if e.Packet? {
      var victim :| MayEvict(t, victim) && Receive(t, local, e.data, victim) == (t', out);
      CompletionFits(t, local, e.data, victim);
    }
  }

  lemma {:induction false} CompletedGrows(r: Run, i: nat, j: nat)
    requires r.Steps() && i <= j <= |r.events|
    ensures r.tables[i].completed <= r.tables[j].completed
    decreases j
  {
    if i < j {
      CompletedGrows(r, i, j - 1);
      StepCompletes(r.tables[j - 1], r.local, r.events[j - 1], r.tables[j], r.outs[j - 1]);
    }
  }

  /**
    Two completions of one message have at least MAX_RECENT_MESSAGES others between them, in every run, stops
    included: the log grows by more than that many entries from the first to the second.
   */
  lemma {:induction false} AtMostOnceInWindow(r: Run, i: nat, j: nat, id: Identity)
    requires r.Steps() && i < j < |r.events|
    requires r.CompletesAt(i, id) && r.CompletesAt(j, id)
    requires CursorSound(|r.tables[j + 1].completed|, MAX_RECENT_MESSAGES, SIZE_MODULUS)
    ensures MAX_RECENT_MESSAGES < |r.tables[j].completed| - |r.tables[i].completed|
  {
    RunLogIsSpaced(r, j + 1);
    CompletionsApart(r, i, j, id);
  }

  lemma CompletionsApart(r: Run, i: nat, j: nat, id: Identity)
    requires r.Steps() && i < j < |r.events|
    requires r.CompletesAt(i, id) && r.CompletesAt(j, id)
    ensures Spaced(r.tables[j + 1].completed, MAX_RECENT_MESSAGES) ==>
              MAX_RECENT_MESSAGES < |r.tables[j].completed| - |r.tables[i].completed|
  {
    LogRecordsCompletion(r, i, id);
    LogRecordsCompletion(r, j, id);
    CompletedGrows(r, i + 1, j);
    if Spaced(r.tables[j + 1].completed, MAX_RECENT_MESSAGES) {
      SpacedGap(r.tables[i].completed, r.tables[j].completed, id, MAX_RECENT_MESSAGES);
    }
  }

  lemma LogRecordsCompletion(r: Run, i: nat, id: Identity)
    requires r.Steps() && i < |r.events| && r.CompletesAt(i, id)
    ensures r.tables[i + 1].completed == r.tables[i].completed + [id]
  {
    StepCompletes(r.tables[i], r.local, r.events[i], r.tables[i + 1], r.outs[i]);
  }

  lemma SpacedGap<T>(log: seq<T>, later: seq<T>, x: T, n: nat)
    requires log + [x] <= later && Spaced(later + [x], n)
    ensures n < |later| - |log|
  {
    assert (later + [x])[|log|] == (log + [x])[|log|];
    assert (later + [x])[|later|] == x;
  }

  lemma RunLogIsSpaced(r: Run, i: nat)
    requires r.Steps() && i <= |r.events|
    requires CursorSound(|r.tables[i].completed|, MAX_RECENT_MESSAGES, SIZE_MODULUS)
    ensures Spaced(r.tables[i].completed, MAX_RECENT_MESSAGES)
  {
    RunKeepsValid(r, i);
    AdmissibleIsSpaced(r.tables[i].completed, MAX_RECENT_MESSAGES, SIZE_MODULUS);
  }

  // ----- eviction takes the least recently touched -----

  ghost predicate TouchOrdered(t: Table) {
    && (forall id :: id in t.assemblies ==> t.assemblies[id].touch <= t.touch)
    && (forall x, y :: x in t.assemblies && y in t.assemblies && x != y ==>
          t.assemblies[x].touch != t.assemblies[y].touch)
  }

  /** The identity an event is about, if its bytes are a frame. */
  function Subject(e: Event): Option<Identity> {
    if e.Packet? && Parse(e.data).Some? then Some(Parse(e.data).value.id) else None
  }

  /** Identities other than `id` that frames were received for in `events[lo..hi]`. */
  function Others(events: seq<Event>, id: Identity, lo: nat, hi: nat): set<Identity>
    requires hi <= |events|
    decreases hi
  {
    if hi <= lo then {}
    else
      var rest, subject := Others(events, id, lo, hi - 1), Subject(events[hi - 1]);
      if subject.Some? && subject.value != id then rest + {subject.value} else rest
  }

  ghost predicate NoStops(r: Run) {
    forall i :: 0 <= i < |r.events| ==> r.events[i].Packet?
  }

  /** The touch counter, which moves by at most two per packet, does not wrap during the run. */
  ghost predicate NoTouchWrap(t: Table, packets: nat) {
    t.touch + 2 * packets < U32_MODULUS
  }

  /** A packet leaves alone the assemblies it is not about, unless it evicts the oldest to make room for its own. */
  lemma BystanderStep(t: Table, local: u16, data: bytes, t': Table, out: Outcome, x: Identity)
    requires Valid(t) && Arrival(t, local, data, t', out) && Subject(Packet(data)) != Some(x)
    ensures x in t'.assemblies ==> x in t.assemblies && t'.assemblies[x] == t.assemblies[x]
    ensures x in t.assemblies && x !in t'.assemblies ==>
              && |t.assemblies| == MAX_REASSEMBLIES && Oldest(t, x)
              && Subject(Packet(data)).Some? && Subject(Packet(data)).value !in t.assemblies
  {
    var victim :| MayEvict(t, victim) && Receive(t, local, data, victim) == (t', out);
    var r := Parse(data);
    if r.Some? && Admits(t, local, r.value) {
      AcceptFrame(t, r.value, victim, x);
    }
  }

  lemma TouchStep(t: Table, local: u16, data: bytes, t': Table, out: Outcome)
    requires Valid(t) && Arrival(t, local, data, t', out) && t.touch + 2 < U32_MODULUS
    ensures t.touch <= t'.touch <= t.touch + 2
    ensures forall x | x in t'.assemblies && Subject(Packet(data)) == Some(x) ::
              t' == t || (t.touch < t'.touch && t'.assemblies[x].touch == t'.touch)
  {
    var victim :| MayEvict(t, victim) && Receive(t, local, data, victim) == (t', out);
    var r := Parse(data);
    if r.Some? && Admits(t, local, r.value) {
      AcceptTouch(t, r.value, victim);
    }
  }

  /** What the order of touches depends on, of all that a packet does. */
  ghost predicate Effect(t: Table, e: Event, t': Table) {
    && (t.touch + 2 < U32_MODULUS ==>
          && t.touch <= t'.touch <= t.touch + 2
          && forall x | x in t'.assemblies && Subject(e) == Some(x) ::
               t' == t || (t.touch < t'.touch && t'.assemblies[x].touch == t'.touch))
    && (forall x | x in t'.assemblies && Subject(e) != Some(x) ::
          x in t.assemblies && t'.assemblies[x] == t.assemblies[x])
    && (forall x | x in t.assemblies && x !in t'.assemblies && Subject(e) != Some(x) ::
          && |t.assemblies| == MAX_REASSEMBLIES && Oldest(t, x)
          && Subject(e).Some? && Subject(e).value !in t.assemblies)
  }

  ghost predicate Effects(tables: seq<Table>, events: seq<Event>) {
    && |tables| == |events| + 1
    && forall i {:trigger events[i]} :: 0 <= i < |events| ==> Effect(tables[i], events[i], tables[i + 1])
  }

  lemma PacketHasEffect(t: Table, local: u16, data: bytes, t': Table, out: Outcome)
    requires Valid(t) && Arrival(t, local, data, t', out)
    ensures Effect(t, Packet(data), t')
  {
    if t.touch + 2 < U32_MODULUS {
      TouchStep(t, local, data, t', out);
    }
    forall x | Subject(Packet(data)) != Some(x)
      ensures x in t'.assemblies ==> x in t.assemblies && t'.assemblies[x] == t.assemblies[x]
      ensures x in t.assemblies && x !in t'.assemblies ==>
                && |t.assemblies| == MAX_REASSEMBLIES && Oldest(t, x)
                && Subject(Packet(data)).Some? && Subject(Packet(data)).value !in t.assemblies
    {
      BystanderStep(t, local, data, t', out, x);
    }
  }

  lemma RunHasEffects(r: Run)
    requires r.Steps() && NoStops(r)
    ensures Effects(r.tables, r.events)
  {
    forall i | 0 <= i < |r.events| ensures Effect(r.tables[i], r.events[i], r.tables[i + 1]) {
      PacketHasEffect(r.tables[i], r.local, r.events[i].data, r.tables[i + 1], r.outs[i]);
    }
  }

  lemma EffectKeepsTouchOrder(t: Table, e: Event, t': Table)
    requires Effect(t, e, t') && TouchOrdered(t) && t.touch + 2 < U32_MODULUS
    ensures TouchOrdered(t')
  {
  }

  lemma {:induction false} TouchOrderKept(tables: seq<Table>, events: seq<Event>, i: nat)
    requires Effects(tables, events) && NoTouchWrap(tables[0], |events|) && TouchOrdered(tables[0]) && i <= |events|
    ensures TouchOrdered(tables[i]) && tables[i].touch <= tables[0].touch + 2 * i
  {
    if i != 0 {
      TouchOrderKept(tables, events, i - 1);
      EffectKeepsTouchOrder(tables[i - 1], events[i - 1], tables[i]);
    }
  }

  ghost predicate NoneAbout(events: seq<Event>, id: Identity, lo: nat, hi: nat)
    requires hi <= |events|
  {
    forall i {:trigger events[i]} :: lo <= i < hi ==> Subject(events[i]) != Some(id)
  }

  /** The assembly of `id` was touched by the packet before table `b`, if it exists then. */
  ghost predicate JustTouched(t: Table, id: Identity) {
    id in t.assemblies ==> t.assemblies[id].touch == t.touch
  }

  /** An assembly left alone stays as it is, and whatever was touched after it had a frame meanwhile. */
  lemma {:induction false} TouchedSinceHadFrame(tables: seq<Table>, events: seq<Event>, id: Identity, b: nat, i: nat)
    requires Effects(tables, events) && NoTouchWrap(tables[0], |events|) && TouchOrdered(tables[0])
    requires b <= i <= |events| && NoneAbout(events, id, b, i)
    requires id in tables[i].assemblies && JustTouched(tables[b], id)
    ensures id in tables[b].assemblies && tables[i].assemblies[id] == tables[b].assemblies[id]
    ensures forall y | y in tables[i].assemblies && y != id
                       && tables[i].assemblies[id].touch < tables[i].assemblies[y].touch ::
              y in Others(events, id, b, i)
  {
    if b == i {
      TouchOrderKept(tables, events, b);
    } else {
      assert Subject(events[i - 1]) != Some(id);
      TouchedSinceHadFrame(tables, events, id, b, i - 1);
    }
  }

  lemma SubsetSize<T>(a: set<T>, b: set<T>)
    requires a <= b
    ensures |a| <= |b|
  {
    assert b == a + (b - a);
  }

  lemma ReplacedSize<T>(keys: set<T>, out: T, newcomer: T, all: set<T>)
    requires out in keys && newcomer !in keys && newcomer in all && forall x | x in keys && x != out :: x in all
    ensures |keys| <= |all|
  {
    SubsetSize(keys - {out} + {newcomer}, all);
  }

  /**
    A message in progress that is lost to an eviction was the least recently touched: since its last touch, frames
    of at least MAX_REASSEMBLIES other messages arrived.
   */
  lemma {:induction false} LostOnlyToNewerTraffic(r: Run, id: Identity, b: nat, j: nat)
    requires r.Steps() && NoStops(r) && NoTouchWrap(r.tables[0], |r.events|) && TouchOrdered(r.tables[0])
    requires b <= j < |r.events| && NoneAbout(r.events, id, b, j + 1) && JustTouched(r.tables[b], id)
    requires id in r.tables[j].assemblies && id !in r.tables[j + 1].assemblies
    ensures MAX_REASSEMBLIES <= |Others(r.events, id, b, j + 1)|
  {
    RunHasEffects(r);
    LostToNewerTraffic(r.tables, r.events, id, b, j);
  }

  lemma {:induction false} LostToNewerTraffic(tables: seq<Table>, events: seq<Event>, id: Identity, b: nat, j: nat)
    requires Effects(tables, events) && NoTouchWrap(tables[0], |events|) && TouchOrdered(tables[0])
    requires b <= j < |events| && NoneAbout(events, id, b, j + 1) && JustTouched(tables[b], id)
    requires id in tables[j].assemblies && id !in tables[j + 1].assemblies
    ensures MAX_REASSEMBLIES <= |Others(events, id, b, j + 1)|
  {
    TouchOrderKept(tables, events, j);
    TouchedSinceHadFrame(tables, events, id, b, j);
    assert Subject(events[j]) != Some(id) && Effect(tables[j], events[j], tables[j + 1]);
    var t, newcomer := tables[j], Subject(events[j]).value;
    assert forall y | y in t.assemblies && y != id :: t.assemblies[id].touch < t.assemblies[y].touch;
    ReplacedSize(t.assemblies.Keys, id, newcomer, Others(events, id, b, j + 1));
    assert |t.assemblies.Keys| == |t.assemblies|;
  }
}
