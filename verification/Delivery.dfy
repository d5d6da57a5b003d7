/** The bookkeeping of one message over a run, apart from what its fragments are. */
module Bookkeeping {
  import opened RadioTypes
  import opened Fragmentation

  /** A message at a node: recently completed, in progress, in progress and just touched, the indices held. */
  datatype Standing = Standing(recent: bool, present: bool, touched: bool, held: set<nat>)

  /** The indices received in `arrivals[..hi]`; packets about other messages are None. */
  function IndicesIn(arrivals: seq<Option<nat>>, hi: nat): set<nat>
    requires hi <= |arrivals|
  {
    if hi == 0 then {}
    else if arrivals[hi - 1].Some? then IndicesIn(arrivals, hi - 1) + {arrivals[hi - 1].value}
    else IndicesIn(arrivals, hi - 1)
  }

  ghost predicate Covered(arrivals: seq<Option<nat>>, count: nat, hi: nat)
    requires hi <= |arrivals|
  {
    forall k: nat :: k < count ==> k in IndicesIn(arrivals, hi)
  }

  /** One more than the position of the last arrival before `hi`. */
  function LastSeen(arrivals: seq<Option<nat>>, hi: nat): (b: nat)
    requires hi <= |arrivals|
    ensures b <= hi && forall i :: b <= i < hi ==> arrivals[i].None?
  {
    if hi == 0 || arrivals[hi - 1].Some? then hi else LastSeen(arrivals, hi - 1)
  }

  /** What one packet does to a message that is not recent; `completes` if it completes it. */
  predicate Move(a: Standing, arrival: Option<nat>, a': Standing, completes: bool, count: nat) {
    match arrival
    case None =>
      && !completes && (!a.recent ==> !a'.recent)
      && (a'.present ==> a.present && a'.held == a.held)
    case Some(k) =>
      !a.recent ==>
        (completes <==> |a.held + {k}| == count) &&
        (!completes ==> !a'.recent && a'.present && a'.touched && a'.held == a.held + {k})
  }

  ghost predicate Moves(s: seq<Standing>, arrivals: seq<Option<nat>>, completes: seq<bool>, count: nat) {
    && |s| == |arrivals| + 1 && |completes| == |arrivals|
    && (forall i | 0 <= i < |s| && !s[i].present :: s[i].held == {})
    && (forall i {:trigger arrivals[i]} | 0 <= i < |arrivals| :: Move(s[i], arrivals[i], s[i + 1], completes[i], count))
  }

  /** Packet `j`, about another message, does not make the message lose its place. */
  ghost predicate KeptAt(s: seq<Standing>, arrivals: seq<Option<nat>>, j: nat)
    requires |s| == |arrivals| + 1 && j < |arrivals|
  {
    var b := LastSeen(arrivals, j);
    arrivals[j].None? && s[j].present && (s[b].present ==> s[b].touched) ==> s[j + 1].present
  }

  ghost predicate Undisturbed(s: seq<Standing>, arrivals: seq<Option<nat>>)
    requires |s| == |arrivals| + 1
  {
    forall j: nat | j < |arrivals| :: KeptAt(s, arrivals, j)
  }

  lemma {:induction false} ArrivedBelowCount(arrivals: seq<Option<nat>>, count: nat, hi: nat)
    requires hi <= |arrivals| && forall i | 0 <= i < |arrivals| && arrivals[i].Some? :: arrivals[i].value < count
    ensures forall k :: k in IndicesIn(arrivals, hi) ==> k < count
    ensures |IndicesIn(arrivals, hi)| <= count
    ensures |IndicesIn(arrivals, hi)| == count <==> Covered(arrivals, count, hi)
  {
    if hi != 0 {
      ArrivedBelowCount(arrivals, count, hi - 1);
    }
    CoversAll(IndicesIn(arrivals, hi), count);
  }

  /** Until everything has arrived, exactly what has arrived is held. */
  lemma {:induction false} HeldIsArrived(s: seq<Standing>, arrivals: seq<Option<nat>>, completes: seq<bool>,
                                         count: nat, i: nat)
    requires Moves(s, arrivals, completes, count) && Undisturbed(s, arrivals) && i <= |arrivals|
    requires !s[0].recent && !s[0].present
    requires |IndicesIn(arrivals, i)| < count
    requires forall i | 0 <= i < |arrivals| && arrivals[i].Some? :: arrivals[i].value < count
    ensures !s[i].recent && s[i].held == IndicesIn(arrivals, i)
    ensures var b := LastSeen(arrivals, i); s[b].present ==> s[b].touched
  {
    if i != 0 {
      ArrivedBelowCount(arrivals, count, i - 1);
      if |IndicesIn(arrivals, i - 1)| == count {
        assert IndicesIn(arrivals, i - 1) <= IndicesIn(arrivals, i);
        ArrivedBelowCount(arrivals, count, i);
      }
      HeldIsArrived(s, arrivals, completes, count, i - 1);
      assert KeptAt(s, arrivals, i - 1);
    }
  }

  /** The first arrival that leaves nothing missing completes the message, and nothing before it does. */
  lemma CompletesWhenCovered(s: seq<Standing>, arrivals: seq<Option<nat>>, completes: seq<bool>, count: nat, i: nat)
    requires Moves(s, arrivals, completes, count) && Undisturbed(s, arrivals) && i < |arrivals|
    requires !s[0].recent && !s[0].present && !Covered(arrivals, count, i)
    requires forall i | 0 <= i < |arrivals| && arrivals[i].Some? :: arrivals[i].value < count
    ensures completes[i] <==> Covered(arrivals, count, i + 1)
  {
    ArrivedBelowCount(arrivals, count, i);
    ArrivedBelowCount(arrivals, count, i + 1);
    HeldIsArrived(s, arrivals, completes, count, i);
  }
}

/**
  Delivery at one node: when the frames of a message arrive in any order, with repetitions and amid other traffic,
  the message completes exactly when its last missing fragment arrives; a message too large to store never does.
 */
module Delivery {
  import opened RadioTypes
  import opened Fragmentation
  import opened TransportWire
  import opened Reassembly
  import opened ReassemblyRuns
  import opened GenuineMessages
  import opened Bookkeeping

  /** A message as its sender cut it, and the hop limits its frames may carry. */
  datatype Shipment = Shipment(id: Identity, payload: bytes, chunk: u8, hops: set<u8>) {
    predicate Wellformed() {
      0 < chunk && FragmentCount(|payload|, chunk) <= 255
    }

    function Count(): nat
      requires Wellformed()
    {
      FragmentCount(|payload|, chunk)
    }

    ghost predicate Carries(f: Fragment) {
      FragmentOf(f, id, payload) && f.chunk == chunk && f.hop in hops
    }
  }

  /** All frames about the shipment's identity are its own. */
  ghost predicate OnlyGenuine(events: seq<Event>, s: Shipment) {
    forall i {:trigger events[i]} :: 0 <= i < |events| && Subject(events[i]) == Some(s.id) ==>
      s.Carries(Parse(events[i].data).value)
  }

  /** The fragment index each packet brings in for `id`. */
  function ArrivalOf(e: Event, id: Identity): Option<nat> {
    if Subject(e) == Some(id) then Some(Parse(e.data).value.index) else None
  }

  function Arrivals(events: seq<Event>, id: Identity): (arrivals: seq<Option<nat>>)
    ensures |arrivals| == |events|
  {
    seq(|events|, (i: nat) requires i < |events| => ArrivalOf(events[i], id))
  }

  /** Every packet is about `id`, or no frame at all. */
  ghost predicate Alone(events: seq<Event>, id: Identity) {
    forall i {:trigger events[i]} :: 0 <= i < |events| ==> Subject(events[i]).None? || Subject(events[i]) == Some(id)
  }

  /** All messages that are in progress at the start or get a frame fit the table together. */
  ghost predicate Roomy(t: Table, events: seq<Event>, id: Identity) {
    |t.assemblies.Keys + {id} + Others(events, id, 0, |events|)| <= MAX_REASSEMBLIES
  }

  /** Between two frames of `id`, frames of fewer than MAX_REASSEMBLIES other messages arrive. */
  ghost predicate Calm(events: seq<Event>, id: Identity) {
    forall lo, hi :: 0 <= lo <= hi <= |events| && NoneAbout(events, id, lo, hi) ==>
      |Others(events, id, lo, hi)| < MAX_REASSEMBLIES
  }

  /**
    What keeps `id` from being evicted: its frames come alone, or there is room for everything, or the traffic is calm
    and the touch counter tells what is older.
   */
  ghost predicate Secure(t: Table, events: seq<Event>, id: Identity) {
    || Alone(events, id)
    || Roomy(t, events, id)
    || (Calm(events, id) && TouchOrdered(t) && NoTouchWrap(t, |events|))
  }

  // ----- one packet -----

  ghost predicate Genuinely(t: Table, s: Shipment) {
    s.id in t.assemblies ==>
      && GenuineAssembly(t.assemblies[s.id], s.payload)
      && t.assemblies[s.id].chunk == s.chunk && t.assemblies[s.id].hop in s.hops
  }

  ghost function StandingOf(t: Table, s: Shipment): Standing {
    Standing(Recent(t, s.id), s.id in t.assemblies, JustTouched(t, s.id), PartsHeld(t, s.id))
  }

  /** What one packet does to a shipment whose assembly, if there is one, is genuine. */
  lemma PacketMoves(t: Table, local: u16, data: bytes, t': Table, out: Outcome, s: Shipment)
    requires Valid(t) && Arrival(t, local, data, t', out) && Genuinely(t, s)
    requires s.Wellformed() && Storable(|s.payload|, s.chunk)
    requires s.id.source !in {0, local} && s.id.destination != 0
    requires Subject(Packet(data)) == Some(s.id) ==> s.Carries(Parse(data).value)
    ensures Move(StandingOf(t, s), ArrivalOf(Packet(data), s.id), StandingOf(t', s), Completes(out, s.id), s.Count())
    ensures Genuinely(t', s)
    ensures Completes(out, s.id) ==> out.message == Message(s.id, s.payload) && out.hop in s.hops
  {
    var victim :| MayEvict(t, victim) && Receive(t, local, data, victim) == (t', out);
    if Subject(Packet(data)) == Some(s.id) {
      if !Recent(t, s.id) {
        OwnPacketMoves(t, local, data, victim, s);
      }
    } else {
      BystanderKeepsRecent(t, local, data, victim, s.id);
      BystanderStep(t, local, data, t', out, s.id);
    }
  }

  lemma OwnPacketMoves(t: Table, local: u16, data: bytes, victim: Identity, s: Shipment)
    requires Valid(t) && MayEvict(t, victim) && Genuinely(t, s) && !Recent(t, s.id)
    requires s.Wellformed() && Storable(|s.payload|, s.chunk)
    requires s.id.source !in {0, local} && s.id.destination != 0
    requires Subject(Packet(data)) == Some(s.id) && s.Carries(Parse(data).value)
    ensures var (t', out) := Receive(t, local, data, victim);
            && Move(StandingOf(t, s), ArrivalOf(Packet(data), s.id), StandingOf(t', s), Completes(out, s.id), s.Count())
            && Genuinely(t', s)
            && (Completes(out, s.id) ==> out.message == Message(s.id, s.payload) && out.hop in s.hops)
  {
    var f := Parse(data).value;
    GenuineProgress(t, f, victim, s.payload);
    GenuineAccept(t, f, victim, s.payload);
    CompletionFits(t, local, data, victim);
  }

  lemma BystanderKeepsRecent(t: Table, local: u16, data: bytes, victim: Identity, id: Identity)
    requires Valid(t) && MayEvict(t, victim) && Subject(Packet(data)) != Some(id)
    ensures var (t', out) := Receive(t, local, data, victim);
            && (out.Completed? ==> out.message.id != id)
            && (!Recent(t, id) ==> !Recent(t', id))
  {
    var (t', out) := Receive(t, local, data, victim);
    CompletionFits(t, local, data, victim);
    if out.Completed? && !Recent(t, id) {
      RecentAppend(t, out.message.id, id);
    }
  }

  // ----- whole runs -----

  /** A run at a node where the shipment is neither recent nor in progress, and can be delivered. */
  ghost predicate Delivering(r: Run, s: Shipment) {
    && r.Steps() && NoStops(r)
    && s.Wellformed() && OnlyGenuine(r.events, s) && Secure(r.tables[0], r.events, s.id)
    && Storable(|s.payload|, s.chunk)
    && s.id.source !in {0, r.local} && s.id.destination != 0
    && !Recent(r.tables[0], s.id) && s.id !in r.tables[0].assemblies
  }

  /** What packet `i` of such a run does. */
  lemma RunStep(r: Run, s: Shipment, i: nat)
    requires r.Steps() && s.Wellformed() && i < |r.events|
    ensures Delivering(r, s) && Genuinely(r.tables[i], s) ==>
              && Genuinely(r.tables[i + 1], s)
              && Move(StandingOf(r.tables[i], s), ArrivalOf(r.events[i], s.id), StandingOf(r.tables[i + 1], s),
                      Completes(r.outs[i], s.id), s.Count())
              && (Completes(r.outs[i], s.id) ==>
                    r.outs[i].message == Message(s.id, s.payload) && r.outs[i].hop in s.hops)
  {
    if Delivering(r, s) && Genuinely(r.tables[i], s) {
      assert r.events[i].Packet?;
      PacketMoves(r.tables[i], r.local, r.events[i].data, r.tables[i + 1], r.outs[i], s);
    }
  }

  lemma {:induction false} RunIsGenuine(r: Run, s: Shipment, i: nat)
    requires Delivering(r, s) && i <= |r.events|
    ensures Genuinely(r.tables[i], s)
  {
    if i != 0 {
      RunIsGenuine(r, s, i - 1);
      RunStep(r, s, i - 1);
    }
  }

  ghost function Standings(tables: seq<Table>, s: Shipment): (standings: seq<Standing>)
    ensures |standings| == |tables|
  {
    seq(|tables|, (i: nat) requires i < |tables| => StandingOf(tables[i], s))
  }

  function Completions(outs: seq<Outcome>, id: Identity): (completes: seq<bool>)
    ensures |completes| == |outs|
  {
    seq(|outs|, (i: nat) requires i < |outs| => Completes(outs[i], id))
  }

  lemma RunMoves(r: Run, s: Shipment)
    requires Delivering(r, s)
    ensures Moves(Standings(r.tables, s), Arrivals(r.events, s.id), Completions(r.outs, s.id), s.Count())
  {
    var standings, arrivals, completes := Standings(r.tables, s), Arrivals(r.events, s.id), Completions(r.outs, s.id);
    forall i | 0 <= i < |arrivals| ensures Move(standings[i], arrivals[i], standings[i + 1], completes[i], s.Count()) {
      RunIsGenuine(r, s, i);
      RunStep(r, s, i);
    }
  }

  lemma NoArrivalNoneAbout(events: seq<Event>, id: Identity, lo: nat, hi: nat)
    requires lo <= hi <= |events| && forall i | lo <= i < hi :: Arrivals(events, id)[i].None?
    ensures NoneAbout(events, id, lo, hi)
  {
    forall i | lo <= i < hi ensures Subject(events[i]) != Some(id) {
      assert Arrivals(events, id)[i].None?;
    }
  }

  // ----- nothing evicts the message -----

  lemma {:induction false} InProgressHadFrame(tables: seq<Table>, events: seq<Event>, id: Identity, i: nat)
    requires Effects(tables, events) && i <= |events|
    ensures tables[i].assemblies.Keys <= tables[0].assemblies.Keys + {id} + Others(events, id, 0, i)
  {
    if i != 0 {
      InProgressHadFrame(tables, events, id, i - 1);
      assert Effect(tables[i - 1], events[i - 1], tables[i]);
    }
  }

  lemma {:induction false} OthersGrow(events: seq<Event>, id: Identity, lo: nat, hi: nat)
    requires lo <= hi <= |events|
    ensures Others(events, id, 0, lo) <= Others(events, id, 0, hi)
    decreases hi
  {
    if lo < hi {
      OthersGrow(events, id, lo, hi - 1);
    }
  }

  lemma RoomForNewcomer(tables: seq<Table>, events: seq<Event>, id: Identity, j: nat)
    requires Effects(tables, events) && Roomy(tables[0], events, id) && j < |events|
    requires Subject(events[j]).Some? && Subject(events[j]).value !in tables[j].assemblies
    requires Subject(events[j]) != Some(id)
    ensures |tables[j].assemblies| < MAX_REASSEMBLIES
  {
    var all := tables[0].assemblies.Keys + {id} + Others(events, id, 0, |events|);
    InProgressHadFrame(tables, events, id, j);
    OthersGrow(events, id, j, |events|);
    OthersGrow(events, id, j + 1, |events|);
    assert Subject(events[j]).value in Others(events, id, 0, j + 1);
    ProperSubset(tables[j].assemblies.Keys, Subject(events[j]).value, all);
    assert |tables[j].assemblies.Keys| == |tables[j].assemblies|;
  }

  lemma ProperSubset<T>(keys: set<T>, x: T, all: set<T>)
    requires keys <= all && x in all && x !in keys
    ensures |keys| < |all|
  {
    SubsetSize(keys + {x}, all);
  }

  lemma KeptWhenCalm(tables: seq<Table>, events: seq<Event>, id: Identity, b: nat, j: nat)
    requires Effects(tables, events) && b <= j < |events|
    requires Calm(events, id) && TouchOrdered(tables[0]) && NoTouchWrap(tables[0], |events|)
    requires NoneAbout(events, id, b, j + 1) && JustTouched(tables[b], id) && id in tables[j].assemblies
    ensures id in tables[j + 1].assemblies
  {
    if id !in tables[j + 1].assemblies {
      LostToNewerTraffic(tables, events, id, b, j);
    }
  }

  lemma KeptWhenSecure(tables: seq<Table>, events: seq<Event>, id: Identity, b: nat, j: nat)
    requires Effects(tables, events) && Secure(tables[0], events, id) && b <= j < |events|
    requires NoneAbout(events, id, b, j + 1) && JustTouched(tables[b], id) && id in tables[j].assemblies
    ensures id in tables[j + 1].assemblies
  {
    assert Subject(events[j]) != Some(id) && Effect(tables[j], events[j], tables[j + 1]);
    if Alone(events, id) {
    } else if Roomy(tables[0], events, id) {
      if Subject(events[j]).Some? && Subject(events[j]).value !in tables[j].assemblies {
        RoomForNewcomer(tables, events, id, j);
      }
    } else {
      KeptWhenCalm(tables, events, id, b, j);
    }
  }

  lemma SecureIsUndisturbed(tables: seq<Table>, events: seq<Event>, s: Shipment)
    requires Effects(tables, events) && Secure(tables[0], events, s.id)
    ensures Undisturbed(Standings(tables, s), Arrivals(events, s.id))
  {
    forall j: nat | j < |events| ensures KeptAt(Standings(tables, s), Arrivals(events, s.id), j) {
      SecureKeeps(tables, events, s, j);
    }
  }

  lemma SecureKeeps(tables: seq<Table>, events: seq<Event>, s: Shipment, j: nat)
    requires Effects(tables, events) && Secure(tables[0], events, s.id) && j < |events|
    ensures KeptAt(Standings(tables, s), Arrivals(events, s.id), j)
  {
    var b := LastSeen(Arrivals(events, s.id), j);
    if NoneAbout(events, s.id, b, j + 1) && JustTouched(tables[b], s.id) && s.id in tables[j].assemblies {
      KeptWhenSecure(tables, events, s.id, b, j);
    }
    KeptAtIs(tables, events, s, b, j);
  }

  lemma KeptAtIs(tables: seq<Table>, events: seq<Event>, s: Shipment, b: nat, j: nat)
    requires |tables| == |events| + 1 && j < |events| && b == LastSeen(Arrivals(events, s.id), j)
    requires NoneAbout(events, s.id, b, j + 1) && JustTouched(tables[b], s.id) && s.id in tables[j].assemblies ==>
               s.id in tables[j + 1].assemblies
    ensures KeptAt(Standings(tables, s), Arrivals(events, s.id), j)
  {
    if Arrivals(events, s.id)[j].None? {
      NoArrivalNoneAbout(events, s.id, b, j + 1);
    }
  }

  /**
    In any order, with any repetitions, amid other traffic: the packet that brings in the last missing fragment, and
    no earlier one, completes the message.
   */
  lemma CompletesExactlyWhenCovered(r: Run, s: Shipment, i: nat)
    requires Delivering(r, s) && i < |r.events| && !Covered(Arrivals(r.events, s.id), s.Count(), i)
    ensures r.CompletesAt(i, s.id) <==> Covered(Arrivals(r.events, s.id), s.Count(), i + 1)
  {
    RunHasEffects(r);
    RunMoves(r, s);
    SecureIsUndisturbed(r.tables, r.events, s);
    ArrivalsBelowCount(r.events, s);
    CompletesWhenCovered(Standings(r.tables, s), Arrivals(r.events, s.id), Completions(r.outs, s.id), s.Count(), i);
  }

  lemma ArrivalsBelowCount(events: seq<Event>, s: Shipment)
    requires s.Wellformed() && OnlyGenuine(events, s)
    ensures forall i | 0 <= i < |events| && Arrivals(events, s.id)[i].Some? ::
              Arrivals(events, s.id)[i].value < s.Count()
  {
    forall i | 0 <= i < |events| && Arrivals(events, s.id)[i].Some?
      ensures Arrivals(events, s.id)[i].value < s.Count()
    {
      assert Subject(events[i]) == Some(s.id);
    }
  }

  /** Whenever the message completes, it completes with the payload that was sent. */
  lemma CompletesWithPayload(r: Run, s: Shipment, i: nat)
    requires Delivering(r, s) && i < |r.events| && r.CompletesAt(i, s.id)
    ensures r.outs[i].message == Message(s.id, s.payload) && r.outs[i].hop in s.hops
  {
    RunIsGenuine(r, s, i);
    RunStep(r, s, i);
  }
}
