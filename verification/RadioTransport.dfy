/** One node of the transport: its tables updated in place, its radios, and the receiver it hands messages to. */
module RadioTransports {
  import opened Arithmetic
  import opened RadioTypes
  import opened TransportWire
  import opened RecentRing
  import opened Reassembly
  import opened ReassemblyRecords
  import opened Radios
  import Network

  /** A registered radio, in registration order. */
  datatype Interface = Interface(radio: Radio, defaultRoute: bool)

  datatype Route = Route(radio: Radio, nextHop: RadioAddress)

  /** The first interface marked as a default route. */
  function DefaultRadio(interfaces: seq<Interface>): (r: Option<Radio>)
    ensures r.None? <==> forall i | 0 <= i < |interfaces| :: !interfaces[i].defaultRoute
    ensures r.Some? ==>
              exists i | 0 <= i < |interfaces| :: IsFirstDefault(interfaces, i) && r.value == interfaces[i].radio
  {
    if interfaces == [] then None
    else
      var last := |interfaces| - 1;
      var r := DefaultRadio(interfaces[..last]);
      assert forall i | 0 <= i < last :: IsFirstDefault(interfaces[..last], i) ==> IsFirstDefault(interfaces, i);
      if r.None? && interfaces[last].defaultRoute then
        assert IsFirstDefault(interfaces, last);
        Some(interfaces[last].radio)
      else r
  }

  predicate IsFirstDefault(interfaces: seq<Interface>, i: nat)
    requires i < |interfaces|
  {
    interfaces[i].defaultRoute && forall j | 0 <= j < i :: !interfaces[j].defaultRoute
  }

  /** The result of sending a message of `n` bytes through radio `r`. */
  ghost function ResultVia(states: map<Radio, RadioState>, r: Radio, n: nat): SendResult {
    if r in states then ViaResult(r, states[r], n) else SendResult(InterfaceUnavailable, NotStarted)
  }

  /**
    The result of a broadcast over the interfaces: accepted if any capable radio took the whole message, otherwise
    what the last capable radio said, or NoRoute if there is none.
   */
  ghost function BroadcastResult(interfaces: seq<Interface>, states: map<Radio, RadioState>, n: nat): SendResult {
    if interfaces == [] then SendResult(NoRoute, NativeFailure)
    else
      var last := |interfaces| - 1;
      var before, radio := BroadcastResult(interfaces[..last], states, n), interfaces[last].radio;
      if radio.broadcast && !before.status.Accepted? then ResultVia(states, radio, n) else before
  }

  lemma BroadcastStep(interfaces: seq<Interface>, states: map<Radio, RadioState>, n: nat, i: nat)
    requires i < |interfaces|
    ensures var before, radio := BroadcastResult(interfaces[..i], states, n), interfaces[i].radio;
            BroadcastResult(interfaces[..i + 1], states, n) ==
              if radio.broadcast && !before.status.Accepted? then ResultVia(states, radio, n) else before
  {
    assert interfaces[..i + 1][..i] == interfaces[..i];
  }

  lemma {:induction false} BroadcastAccepted(interfaces: seq<Interface>, states: map<Radio, RadioState>, n: nat)
    ensures var result := BroadcastResult(interfaces, states, n);
            && (result.status.Accepted? <==> exists i | 0 <= i < |interfaces| ::
                  interfaces[i].radio.broadcast && ResultVia(states, interfaces[i].radio, n).status.Accepted?)
            && (result.status.NoRoute? <==> forall i | 0 <= i < |interfaces| :: !interfaces[i].radio.broadcast)
  {
    if interfaces != [] {
      BroadcastAccepted(interfaces[..|interfaces| - 1], states, n);
      assert forall i | 0 <= i < |interfaces| - 1 :: interfaces[..|interfaces| - 1][i] == interfaces[i];
    }
  }

  /** If no capable radio took a broadcast, the sender is told what the last of them said. */
  lemma {:induction false} BroadcastReportsLast(interfaces: seq<Interface>, states: map<Radio, RadioState>, n: nat,
                                                k: nat)
    requires k < |interfaces| && interfaces[k].radio.broadcast
    requires forall i | k < i < |interfaces| :: !interfaces[i].radio.broadcast
    ensures var result := BroadcastResult(interfaces, states, n);
            !result.status.Accepted? ==> result == ResultVia(states, interfaces[k].radio, n)
  {
    var last := |interfaces| - 1;
    if k < last {
      assert forall i | 0 <= i < last :: interfaces[..last][i] == interfaces[i];
      BroadcastReportsLast(interfaces[..last], states, n, k);
    }
  }

  /** How a message for `destination` goes out through radio `r`, if it does. */
  ghost function NextHopVia(w: Wiring, r: Radio, destination: u16): Option<RadioAddress>
  {
    if destination == BROADCAST_NODE then
      if r.broadcast then Some(BroadcastAddress(r.addressBytes)) else None
    else if destination in w.routes then
      if w.routes[destination].radio == r then Some(w.routes[destination].nextHop) else None
    else if DefaultRadio(w.interfaces) == Some(r) then Some(BroadcastAddress(r.addressBytes))
    else None
  }

  /** The interfaces and routes that decide where a message goes. */
  datatype Wiring = Wiring(interfaces: seq<Interface>, routes: map<u16, Route>)

  /** The result of sending a message: by broadcast, by its route, or by the default interface. */
  ghost function FramedResult(w: Wiring, states: map<Radio, RadioState>, destination: u16, n: nat): SendResult {
    if destination == BROADCAST_NODE then BroadcastResult(w.interfaces, states, n)
    else if destination in w.routes then ResultVia(states, w.routes[destination].radio, n)
    else if DefaultRadio(w.interfaces).Some? then ResultVia(states, DefaultRadio(w.interfaces).value, n)
    else SendResult(NoRoute, NativeFailure)
  }

  /** The state of radio `r`, in state `s` before, once a message went out. */
  ghost function StateAfter(w: Wiring, r: Radio, s: RadioState, id: Identity, hop: u8, payload: bytes): RadioState {
    match NextHopVia(w, r, id.destination)
    case None => s
    case Some(nextHop) => AfterVia(r, s, nextHop, id, hop, payload)
  }

  /** The states of all radios once a message went out. */
  ghost function StatesAfter(w: Wiring, before: map<Radio, RadioState>, id: Identity, hop: u8, payload: bytes):
    map<Radio, RadioState>
  {
    map r | r in before :: StateAfter(w, r, before[r], id, hop, payload)
  }

  /** The states of all radios once a message was disposed of. */
  ghost function RadiosAfter(w: Wiring, before: map<Radio, RadioState>, d: Disposal): map<Radio, RadioState> {
    if d.Forward? then StatesAfter(w, before, d.message.id, d.hop, d.message.payload) else before
  }

  /** The receiver's inbox once a message was disposed of. */
  function InboxAfter(hasReceiver: bool, before: seq<Message>, d: Disposal): seq<Message> {
    if d.Deliver? && hasReceiver then before + [d.message] else before
  }

  /** A completed message is handed over if there is a receiver and the message is for this node or for all. */
  lemma InboxGains(hasReceiver: bool, before: seq<Message>, local: u16, out: Outcome)
    ensures InboxAfter(hasReceiver, before, Dispose(local, out)) ==
            before + if hasReceiver && out.Completed? && out.message.id.destination in {local, BROADCAST_NODE}
                     then [out.message] else []
  {
  }

  // ----- the records as a map from identities to slots -----

  ghost predicate OnePerSlot(slotOf: map<Identity, nat>, n: nat) {
    && (forall id :: id in slotOf ==> slotOf[id] < n)
    && (forall x, y :: x in slotOf && y in slotOf && slotOf[x] == slotOf[y] ==> x == y)
  }

  ghost predicate SlotTaken(slotOf: map<Identity, nat>, i: nat) {
    exists id :: id in slotOf && slotOf[id] == i
  }

  lemma {:induction false} SlotsUsed(slotOf: map<Identity, nat>, n: nat)
    requires OnePerSlot(slotOf, n)
    ensures |slotOf| <= n
    ensures |slotOf| == n <==> forall i: nat | i < n :: SlotTaken(slotOf, i)
  {
    if n == 0 {
      assert slotOf == map[];
    } else if id :| id in slotOf && slotOf[id] == n - 1 {
      RemoveOne(slotOf, id);
      SlotsUsed(slotOf - {id}, n - 1);
      forall i: nat | i < n - 1 ensures SlotTaken(slotOf - {id}, i) <==> SlotTaken(slotOf, i) {
        if SlotTaken(slotOf, i) {
          var x :| x in slotOf && slotOf[x] == i;
          assert x in slotOf - {id} && (slotOf - {id})[x] == i;
        }
      }
    } else {
      SlotsUsed(slotOf, n - 1);
      assert !SlotTaken(slotOf, n - 1);
    }
  }

  /** The completions so far, once `id` had all its fragments. */
  function Remembered(log: seq<Identity>, id: Identity): seq<Identity> {
    if RecentIn(log, id) then log else log + [id]
  }

  /** The fragment of a packet, if a node with this table looks at it. */
  ghost function AdmittedFrom(t: Table, local: u16, data: bytes): Option<Fragment> {
    match Parse(data)
    case None => None
    case Some(f) => if Admits(t, local, f) then Some(f) else None
  }

  ghost predicate PacketTaken(t: Table, local: u16, data: bytes, victim: Identity, t': Table, out: Outcome)
    requires forall id | id in t.assemblies :: InProgress(t.assemblies[id])
  {
    match AdmittedFrom(t, local, data)
    case None => t' == t && out == Nothing
    case Some(f) =>
      assert f.id in t.assemblies ==> InProgress(t.assemblies[f.id]);
      MayEvict(t, victim) && (t', out) == Accept(t, f, victim)
  }

  lemma TakenArrives(t: Table, local: u16, data: bytes, victim: Identity, t': Table, out: Outcome)
    requires Reassembly.Valid(t) && PacketTaken(t, local, data, victim, t', out)
    ensures Arrival(t, local, data, t', out) && Reassembly.Valid(t')
  {
    var v := victim;
    if AdmittedFrom(t, local, data).None? {
      v := VictimExists(t);
    }
    ReceiveKeepsValid(t, local, data, v);
    assert Receive(t, local, data, v) == (t', out);
  }

  /** The messages in progress once a fragment was placed, and whether its message has all its parts. */
  datatype Placement = Placement(assemblies: map<Identity, Assembly>, touch: u32, full: bool)

  ghost function Placed(t: Table, f: Fragment, victim: Identity): Placement
    requires WellFormed(f)
  {
    var kept := Kept(t, f.id, victim);
    match SlotFor(t, f)
    case None => Placement(kept, t.touch, false)
    case Some((a, found)) =>
      if !SameCut(a, f) then Placement(kept - {f.id}, found, false)
      else
        var stored := Stored(a, f, NextTouch(found));
        Placement(kept[f.id := stored], NextTouch(found), |stored.parts| == stored.count)
  }

  /** A message that has all its parts is completed: it leaves the table and enters the log. */
  ghost function Settled(p: Placement, id: Identity, log: seq<Identity>): (Table, Outcome)
    requires p.full ==> Whole(p, id)
  {
    if p.full then
      var a := p.assemblies[id];
      (Table(p.assemblies - {id}, log + [id], p.touch), Completed(MessageOf(id, a), a.hop))
    else (Table(p.assemblies, log, p.touch), Nothing)
  }

  ghost predicate Whole(p: Placement, id: Identity) {
    id in p.assemblies && var a := p.assemblies[id]; 0 < a.count && 0 < a.chunk && a.last <= a.chunk
  }

  /** A fragment is accepted by placing it and settling its message. */
  lemma AcceptIs(t: Table, f: Fragment, victim: Identity)
    requires WellFormed(f)
    requires f.id in t.assemblies ==> t.assemblies[f.id].last <= t.assemblies[f.id].chunk
    ensures var p := Placed(t, f, victim);
            && (p.full ==> Whole(p, f.id))
            && Accept(t, f, victim) == Settled(p, f.id, t.completed)
  {
    if SlotFor(t, f).Some? {
      var (a, found) := SlotFor(t, f).value;
      UpdateTwice(Kept(t, f.id, victim), f.id, Stored(a, f, NextTouch(found)), a);
    }
  }

  lemma UpdateTwice<K, V>(m: map<K, V>, k: K, v: V, w: V)
    ensures m[k := v][k := w] == m[k := w]
    ensures m[k := v] - {k} == m - {k}
  {
  }

  class RadioTransport {
    const localNode: u16
    const defaultHopLimit: u8
    const reassemblies: seq<ReassemblyRecord>
    const recent: array<Option<Identity>>
    var nextMessageId: u16
    var hasReceiver: bool
    var inbox: seq<Message>  // the messages handed to the receiver so far
    var interfaces: seq<Interface>
    var routes: map<u16, Route>
    var recentCursor: nat
    var touchCounter: u32

    ghost var slotOf: map<Identity, nat>
    ghost var radios: set<Radio>

    // ----- how the fields stand for the table -----

    ghost predicate Laid() {
      && |reassemblies| == MAX_REASSEMBLIES
      && forall i, j | 0 <= i < j < |reassemblies| :: reassemblies[i] != reassemblies[j]
    }

    /** The records hold `assemblies`: each is in use for one message, the one `slotOf` tells, or cleared. */
    ghost predicate Stores(assemblies: map<Identity, Assembly>)
      reads this`slotOf, reassemblies
    {
      && Laid()
      && slotOf.Keys == assemblies.Keys
      && (forall id | id in slotOf :: HeldAt(slotOf[id], id, assemblies[id]))
      && (forall i | 0 <= i < |reassemblies| :: RecordSound(i))
    }

    ghost predicate HeldAt(i: nat, id: Identity, a: Assembly)
      reads reassemblies
    {
      i < |reassemblies| && reassemblies[i].used && reassemblies[i].id == id && reassemblies[i].Model() == a
    }

    ghost predicate RecordSound(i: nat)
      requires i < |reassemblies|
      reads this`slotOf, reassemblies[i]
    {
      var record := reassemblies[i];
      record.Valid() && (record.used ==> record.id in slotOf && slotOf[record.id] == i)
    }

    ghost predicate RingIs(log: seq<Identity>)
      reads this`recentCursor, recent
    {
      (recent[..], recentCursor) == (RingAfter(log, MAX_RECENT_MESSAGES, SIZE_MODULUS), |log| % SIZE_MODULUS)
    }

    /** Interfaces are distinct radios, and routes lead through interfaces. */
    ghost predicate Wired()
      reads this`interfaces, this`routes, this`radios
    {
      && (forall i | 0 <= i < |interfaces| :: interfaces[i].radio in radios)
      && (forall r :: r in radios ==> exists i :: 0 <= i < |interfaces| && interfaces[i].radio == r)
      && (forall i, j | 0 <= i < j < |interfaces| :: interfaces[i].radio != interfaces[j].radio)
      && (forall d :: d in routes ==> routes[d].radio in radios)
    }

    ghost predicate Models(t: Table)
      reads this`slotOf, this`touchCounter, this`recentCursor, this`interfaces, this`routes, this`radios
      reads reassemblies, recent
    {
      Reassembly.Valid(t) && Refines(t)
    }

    ghost predicate Refines(t: Table)
      reads this`slotOf, this`touchCounter, this`recentCursor, this`interfaces, this`routes, this`radios
      reads reassemblies, recent
    {
      Stores(t.assemblies) && RingIs(t.completed) && touchCounter == t.touch && Wired()
    }

    // ----- lookups -----

    method IsRecent(id: Identity) returns (found: bool)
      ensures found <==> Some(id) in recent[..]
    {
      var i := 0;
      while i < recent.Length
        invariant i <= recent.Length
        invariant Some(id) !in recent[..i]
      {
        if recent[i] == Some(id) {
          return true;
        }
        i := i + 1;
      }
      return false;
    }

    method Remember(id: Identity, ghost log: seq<Identity>)
      requires RingIs(log)
      modifies this`recentCursor, recent
      ensures RingIs(log + [id])
    {
      recent[recentCursor % recent.Length] := Some(id);
      RingAppend(log, id, MAX_RECENT_MESSAGES, SIZE_MODULUS);
      NextCursor(|log|);
      recentCursor := (recentCursor + 1) % SIZE_MODULUS;
    }

    static lemma NextCursor(k: nat)
      ensures (k % SIZE_MODULUS + 1) % SIZE_MODULUS == (k + 1) % SIZE_MODULUS
    {
      MultipleModN(k / SIZE_MODULUS, 1, k % SIZE_MODULUS + 1, SIZE_MODULUS);
      QuotientIs(k, k / SIZE_MODULUS, SIZE_MODULUS);
    }

    method FindUsed(id: Identity) returns (i: nat)
      ensures i <= |reassemblies|
      ensures i < |reassemblies| ==> reassemblies[i].used && reassemblies[i].id == id
      ensures i == |reassemblies| ==>
                forall j | 0 <= j < |reassemblies| :: !(reassemblies[j].used && reassemblies[j].id == id)
    {
      i := 0;
      while i < |reassemblies| && !(reassemblies[i].used && reassemblies[i].id == id)
        invariant i <= |reassemblies|
        invariant forall j | 0 <= j < i :: !(reassemblies[j].used && reassemblies[j].id == id)
      {
        i := i + 1;
      }
    }

    method FindFree() returns (i: nat)
      ensures i <= |reassemblies|
      ensures i < |reassemblies| ==> !reassemblies[i].used
      ensures i == |reassemblies| ==> forall j | 0 <= j < |reassemblies| :: reassemblies[j].used
    {
      i := 0;
      while i < |reassemblies| && reassemblies[i].used
        invariant i <= |reassemblies|
        invariant forall j | 0 <= j < i :: reassemblies[j].used
      {
        i := i + 1;
      }
    }

    /** No slot was touched longer ago than slot `i`, and none before it as long ago. */
    ghost predicate IsFirstOldest(i: nat)
      requires i < |reassemblies|
      reads reassemblies
    {
      && (forall j | 0 <= j < |reassemblies| :: reassemblies[i].touch <= reassemblies[j].touch)
      && (forall j | 0 <= j < i :: reassemblies[i].touch < reassemblies[j].touch)
    }

    method FindOldest() returns (candidate: nat)
      requires 0 < |reassemblies|
      ensures candidate < |reassemblies|
      ensures IsFirstOldest(candidate)
    {
      candidate := 0;
      var i := 0;
      while i < |reassemblies|
        invariant i <= |reassemblies| && candidate < |reassemblies|
        invariant forall j | 0 <= j < i :: reassemblies[candidate].touch <= reassemblies[j].touch
        invariant forall j | 0 <= j < candidate :: reassemblies[candidate].touch < reassemblies[j].touch
      {
        if reassemblies[i].touch < reassemblies[candidate].touch {
          candidate := i;
        }
        i := i + 1;
      }
    }

    // ----- the reassembly table -----

    /** Once its record is cleared, the message `id` is out of the table and the others are as before. */
    twostate lemma Freed(new slot: ReassemblyRecord, new assemblies: map<Identity, Assembly>, new id: Identity)
      requires old(Stores(assemblies)) && id in assemblies && slot == reassemblies[old(slotOf)[id]]
      requires slot.Cleared() && slotOf == old(slotOf) - {id}
      requires forall i | 0 <= i < |reassemblies| :: reassemblies[i] == slot || unchanged(reassemblies[i])
      ensures Stores(assemblies - {id})
    {
      assert old(HeldAt(slotOf[id], id, assemblies[id]));
      forall x | x in slotOf ensures HeldAt(slotOf[x], x, assemblies[x]) {
        assert old(HeldAt(slotOf[x], x, assemblies[x]));
      }
      forall i | 0 <= i < |reassemblies| ensures RecordSound(i) {
        assert old(RecordSound(i));
      }
    }

    /** Resets a record: the message it held is out of the table. */
    method Release(slot: ReassemblyRecord, ghost id: Identity, ghost assemblies: map<Identity, Assembly>)
      requires Stores(assemblies) && id in assemblies && slot == reassemblies[slotOf[id]]
      modifies this`slotOf, slot
      ensures Stores(assemblies - {id})
      ensures !slot.used
    {
      assert HeldAt(slotOf[id], id, assemblies[id]);
      slotOf := slotOf - {id};
      slot.Reset();
      Freed(slot, assemblies, id);
    }

    /** Once record `i` stands for `a`, so does the table for the message `id`; the others are as before. */
    twostate lemma Occupied(new i: nat, new assemblies: map<Identity, Assembly>, new id: Identity, new a: Assembly)
      requires old(Stores(assemblies)) && i < |reassemblies| && slotOf == old(slotOf)[id := i]
      requires if id in assemblies then old(slotOf)[id] == i else !old(reassemblies[i].used)
      requires reassemblies[i].used && reassemblies[i].Filled() && HeldAt(i, id, a)
      requires forall j | 0 <= j < |reassemblies| :: j == i || unchanged(reassemblies[j])
      ensures Stores(assemblies[id := a])
    {
      forall x | x in slotOf ensures HeldAt(slotOf[x], x, assemblies[id := a][x]) {
        assert x != id ==> old(HeldAt(slotOf[x], x, assemblies[x]));
      }
      forall j | 0 <= j < |reassemblies| ensures RecordSound(j) {
        assert old(RecordSound(j));
      }
    }

    /** Takes the free record `i` for the message of `f`. */
    method Occupy(i: nat, f: Fragment, touch: u32, ghost assemblies: map<Identity, Assembly>)
      requires Stores(assemblies) && i < |reassemblies| && !reassemblies[i].used
      requires WellFormed(f) && f.id !in assemblies
      modifies this`slotOf, reassemblies[i]
      ensures Stores(assemblies[f.id := Fresh(f, touch)])
      ensures slotOf == old(slotOf)[f.id := i]
    {
      assert RecordSound(i);
      slotOf := slotOf[f.id := i];
      reassemblies[i].Open(f, touch);
      Occupied(i, assemblies, f.id, Fresh(f, touch));
    }

    lemma FreeSlotMeansRoom(assemblies: map<Identity, Assembly>)
      requires Stores(assemblies)
      ensures |assemblies| <= MAX_REASSEMBLIES
      ensures |assemblies| == MAX_REASSEMBLIES <==> forall i | 0 <= i < |reassemblies| :: reassemblies[i].used
    {
      assert |slotOf.Keys| == |assemblies.Keys|;
      assert forall id | id in slotOf :: HeldAt(slotOf[id], id, assemblies[id]);
      SlotsUsed(slotOf, MAX_REASSEMBLIES);
      forall i: nat | i < MAX_REASSEMBLIES ensures reassemblies[i].used <==> SlotTaken(slotOf, i) {
        assert RecordSound(i);
      }
    }

    lemma OldestRecord(i: nat, assemblies: map<Identity, Assembly>)
      requires Stores(assemblies) && i < |reassemblies| && reassemblies[i].used
      requires forall j | 0 <= j < |reassemblies| :: reassemblies[i].touch <= reassemblies[j].touch
      ensures reassemblies[i].id in assemblies && slotOf[reassemblies[i].id] == i
      ensures forall id :: id in assemblies ==> assemblies[reassemblies[i].id].touch <= assemblies[id].touch
    {
      assert RecordSound(i);
      forall id | id in assemblies ensures assemblies[reassemblies[i].id].touch <= assemblies[id].touch {
        assert HeldAt(slotOf[id], id, assemblies[id]) && RecordSound(slotOf[id]);
      }
    }

    ghost predicate IsInFirstOldest(victim: Identity)
      reads reassemblies
    {
      exists i | 0 <= i < |reassemblies| :: IsFirstOldest(i) && reassemblies[i].id == victim
    }

    /** If a message has to make room for `id`, it is that of the first least recently touched slot. */
    twostate predicate EvictsFirst(t: Table, id: Identity, victim: Identity) {
      id !in t.assemblies && |t.assemblies| == MAX_REASSEMBLIES ==> old(IsInFirstOldest(victim))
    }

    /** A free record for a message that has none, after evicting the first least recently touched one if need be. */
    method MakeRoom(id: Identity, ghost t: Table) returns (i: nat, ghost victim: Identity)
      requires Stores(t.assemblies) && id !in t.assemblies
      modifies this`slotOf, reassemblies
      ensures MayEvict(t, victim) && Stores(Kept(t, id, victim))
      ensures i < |reassemblies| && !reassemblies[i].used
      ensures EvictsFirst(t, id, victim)
    {
      FreeSlotMeansRoom(t.assemblies);
      victim := VictimExists(t);
      i := FindFree();
      if i == |reassemblies| {
        i := FindOldest();
        victim := reassemblies[i].id;
        OldestRecord(i, t.assemblies);
        Release(reassemblies[i], victim, t.assemblies);
      }
    }

    /** A new record for the message of `f`, unless its buffer would be too large; room is made first either way. */
    method CreateReassembly(f: Fragment, ghost t: Table) returns (slot: ReassemblyRecord?, ghost victim: Identity)
      requires Stores(t.assemblies) && touchCounter == t.touch
      requires WellFormed(f) && f.id !in t.assemblies
      modifies this`slotOf, this`touchCounter, reassemblies
      ensures MayEvict(t, victim) && EvictsFirst(t, f.id, victim)
      ensures !Fits(f.count, f.chunk) ==>
                slot == null && Stores(Kept(t, f.id, victim)) && touchCounter == t.touch
      ensures Fits(f.count, f.chunk) ==>
                && f.id in slotOf && slotOf[f.id] < |reassemblies| && slot == reassemblies[slotOf[f.id]]
                && Stores(Kept(t, f.id, victim)[f.id := Fresh(f, touchCounter)])
                && touchCounter == NextTouch(t.touch)
    {
      var i;
      i, victim := MakeRoom(f.id, t);
      if f.count * f.chunk > MAX_MESSAGE_BYTES {
        return null, victim;
      }
      Occupy(i, f, NextTouch(touchCounter), Kept(t, f.id, victim));
      touchCounter := NextTouch(touchCounter);
      return reassemblies[i], victim;
    }

    /** The record a fragment goes to: the one in use for its message, or a free one, or the least recently touched. */
    method FindOrCreateReassembly(f: Fragment, ghost t: Table) returns (slot: ReassemblyRecord?, ghost victim: Identity)
      requires Stores(t.assemblies) && touchCounter == t.touch && WellFormed(f)
      modifies this`slotOf, this`touchCounter, reassemblies
      ensures MayEvict(t, victim) && EvictsFirst(t, f.id, victim)
      ensures SlotFor(t, f).None? ==>
                slot == null && Stores(Kept(t, f.id, victim)) && touchCounter == t.touch
      ensures SlotFor(t, f).Some? ==>
                && f.id in slotOf && slotOf[f.id] < |reassemblies| && slot == reassemblies[slotOf[f.id]]
                && Stores(Kept(t, f.id, victim)[f.id := SlotFor(t, f).value.0])
                && touchCounter == SlotFor(t, f).value.1
    {
      var i := FindUsed(f.id);
      if f.id in t.assemblies {
        assert HeldAt(slotOf[f.id], f.id, t.assemblies[f.id]);
      }
      if i < |reassemblies| {
        assert RecordSound(i);
        assert t.assemblies[f.id := t.assemblies[f.id]] == t.assemblies;
        FreeSlotMeansRoom(t.assemblies);
        victim := VictimExists(t);
        return reassemblies[i], victim;
      }
      slot, victim := CreateReassembly(f, t);
    }

    // ----- sending -----

    ghost function Wires(): Wiring
      reads this`interfaces, this`routes
    {
      Wiring(interfaces, routes)
    }

    ghost function RadioStates(): map<Radio, RadioState>
      reads this`radios, radios
    {
      map r | r in radios :: r.State()
    }

    twostate lemma RadiosUntouched()
      requires radios == old(radios) && forall r | r in radios :: unchanged(r)
      ensures RadioStates() == old(RadioStates())
    {
    }

    twostate predicate Advanced(r: Radio, id: Identity, hop: u8, payload: bytes)
      reads this`interfaces, this`routes, r
    {
      r.State() == StateAfter(Wires(), r, old(r.State()), id, hop, payload)
    }

    /** Sends a message wherever its destination leads. */
    method SendFramed(id: Identity, hop: u8, payload: bytes) returns (result: SendResult)
      requires Wired()
      modifies radios`attempts, radios`sent
      ensures RadioStates() == StatesAfter(Wires(), old(RadioStates()), id, hop, payload)
      ensures result == FramedResult(Wires(), old(RadioStates()), id.destination, |payload|)
    {
      if id.destination == BROADCAST_NODE {
        result := SendToAll(id, hop, payload);
        return;
      }
      if id.destination in routes {
        var route := routes[id.destination];
        result := SendVia(route.radio, route.nextHop, id, hop, payload);
      } else {
        var fallback := DefaultRadio(interfaces);
        match fallback
        case None =>
          result := SendResult(NoRoute, NativeFailure);
        case Some(radio) =>
          result := SendVia(radio, BroadcastAddress(radio.addressBytes), id, hop, payload);
      }
      forall r | r in radios ensures Advanced(r, id, hop, payload) {
      }
    }

    twostate lemma AllAdvanced(new id: Identity, new hop: u8, new payload: bytes)
      requires old(Wired()) && unchanged(this`interfaces, this`routes, this`radios)
      requires forall j | 0 <= j < |interfaces| :: Advanced(interfaces[j].radio, id, hop, payload)
      ensures RadioStates() == StatesAfter(Wires(), old(RadioStates()), id, hop, payload)
    {
      forall r | r in radios ensures Advanced(r, id, hop, payload) {
        var j :| 0 <= j < |interfaces| && interfaces[j].radio == r;
      }
    }

    /** The broadcast branch of SendFramed. */
    method SendToAll(id: Identity, hop: u8, payload: bytes) returns (result: SendResult)
      requires Wired() && id.destination == BROADCAST_NODE
      modifies radios`attempts, radios`sent
      ensures RadioStates() == StatesAfter(Wires(), old(RadioStates()), id, hop, payload)
      ensures result == BroadcastResult(interfaces, old(RadioStates()), |payload|)
    {
      ghost var states := RadioStates();
      var sent, last := false, SendResult(NoRoute, NativeFailure);
      var i := 0;
      while i < |interfaces|
        invariant i <= |interfaces|
        invariant forall j | 0 <= j < i :: Advanced(interfaces[j].radio, id, hop, payload)
        invariant forall j | i <= j < |interfaces| :: interfaces[j].radio.State() == old(interfaces[j].radio.State())
        invariant !last.status.Accepted?
        invariant BroadcastResult(interfaces[..i], states, |payload|) ==
                  if sent then SendResult(SendStatus.Accepted, RadioSendStatus.Accepted) else last
      {
        label Before:
        var radio := interfaces[i].radio;
        assert radio.State() == old(radio.State());
        var via := SendIfCapable(radio, id, hop, payload);
        forall j | 0 <= j <= i ensures Advanced(interfaces[j].radio, id, hop, payload) {
          assert j < i ==> interfaces[j].radio.State() == old@Before(interfaces[j].radio.State());
        }
        if via.Some? {
          if via.value.status.Accepted? {
            sent := true;
          } else {
            last := via.value;
          }
        }
        BroadcastStep(interfaces, states, |payload|, i);
        i := i + 1;
      }
      assert interfaces[..i] == interfaces;
      AllAdvanced(id, hop, payload);
      result := if sent then SendResult(SendStatus.Accepted, RadioSendStatus.Accepted) else last;
    }

    /** One round of the broadcast: interfaces that cannot broadcast are passed over. */
    method SendIfCapable(radio: Radio, id: Identity, hop: u8, payload: bytes) returns (via: Option<SendResult>)
      requires id.destination == BROADCAST_NODE
      modifies radio`attempts, radio`sent
      ensures Advanced(radio, id, hop, payload)
      ensures via == if radio.broadcast then Some(ViaResult(radio, old(radio.State()), |payload|)) else None
      ensures via.Some? && via.value.status.Accepted? ==> via.value.link.Accepted?
    {
      if !radio.broadcast {
        return None;
      }
      var result := SendVia(radio, BroadcastAddress(radio.addressBytes), id, hop, payload);
      return Some(result);
    }

    // ----- one inbound packet -----

    /** Stores a fragment in the record of its message; `full` says that no part is missing any more. */
    method StoreFragment(slot: ReassemblyRecord, f: Fragment, ghost a: Assembly,
                         ghost assemblies: map<Identity, Assembly>)
      returns (full: bool)
      requires Stores(assemblies) && f.id in assemblies && slot == reassemblies[slotOf[f.id]] && assemblies[f.id] == a
      requires WellFormed(f) && Matches(a, f)
      modifies this`touchCounter, slot
      ensures touchCounter == NextTouch(old(touchCounter)) && slotOf == old(slotOf)
      ensures var stored := Stored(a, f, touchCounter);
              && Stores(assemblies[f.id := stored]) && (full <==> |stored.parts| == stored.count)
              && slot.StandsFor(f.id, stored)
    {
      assert HeldAt(slotOf[f.id], f.id, a) && RecordSound(slotOf[f.id]);
      touchCounter := NextTouch(touchCounter);
      slot.Store(f, touchCounter);
      Occupied(slotOf[f.id], assemblies, f.id, Stored(a, f, touchCounter));
      full := slot.receivedCount == slot.fragmentCount;
    }

    /** Hands a completed message to the receiver, or sends it on with one hop less, or drops it. */
    method HandOn(message: Message, hop: u8) returns (ghost d: Disposal)
      requires Wired()
      modifies this`inbox, radios`attempts, radios`sent
      ensures d == Dispose(localNode, Completed(message, hop))
      ensures inbox == InboxAfter(hasReceiver, old(inbox), d)
      ensures RadioStates() == RadiosAfter(Wires(), old(RadioStates()), d)
    {
      if message.id.destination == localNode || message.id.destination == BROADCAST_NODE {
        d := Deliver(message);
        if hasReceiver {
          inbox := inbox + [message];
        }
      } else if hop > 0 {
        var left := hop - 1;
        d := Forward(message, left);
        var result := SendFramed(message.id, left, message.payload);
      } else {
        d := Discard;
      }
    }

    /** Remembers a message as completed and hands it on. */
    method Finish(message: Message, hop: u8, ghost log: seq<Identity>) returns (ghost d: Disposal)
      requires RingIs(log) && Wired()
      modifies this`recentCursor, this`inbox, recent, radios`attempts, radios`sent
      ensures RingIs(log + [message.id])
      ensures d == Dispose(localNode, Completed(message, hop))
      ensures inbox == InboxAfter(hasReceiver, old(inbox), d)
      ensures RadioStates() == RadiosAfter(Wires(), old(RadioStates()), d)
    {
      Remember(message.id, log);
      RadiosUntouched();
      d := HandOn(message, hop);
    }

    /** What becomes of a message whose fragments are all in. */
    ghost function Finished(a: Assembly, id: Identity, log: seq<Identity>): Disposal
      requires 0 < a.count && 0 < a.chunk && a.last <= a.chunk
    {
      if RecentIn(log, id) then Discard else Dispose(localNode, Completed(MessageOf(id, a), a.hop))
    }

    /**
      Remembers the message of a record whose fragments are all in and hands it on, unless it was completed recently;
      resets the record either way.
     */
    method Complete(slot: ReassemblyRecord, ghost id: Identity, ghost a: Assembly, ghost log: seq<Identity>)
      returns (ghost d: Disposal)
      requires slot.Filled() && slot.id == id && slot.Model() == a && 0 < a.count && a.last <= a.chunk
      requires RingIs(log) && Wired()
      modifies this`recentCursor, this`inbox, slot, recent, radios`attempts, radios`sent
      ensures slot.Cleared()
      ensures d == Finished(a, id, log)
      ensures RingIs(Remembered(log, id))
      ensures inbox == InboxAfter(hasReceiver, old(inbox), d)
      ensures RadioStates() == RadiosAfter(Wires(), old(RadioStates()), d)
    {
      var found := IsRecent(slot.id);
      RadiosUntouched();
      if found {
        d := Discard;
      } else {
        slot.MessageBytesAre();
        d := Finish(Message(slot.id, slot.MessageBytes()), slot.hopLimit, log);
      }
      label Handed:
      slot.Reset();
      RadiosUntouched@Handed();
    }

    /** The messages in progress once a fragment of `a` was taken in, or `a` was dropped for being cut differently. */
    static ghost function Absorbed(assemblies: map<Identity, Assembly>, a: Assembly, f: Fragment, touch: u32):
      map<Identity, Assembly>
      requires WellFormed(f)
    {
      if SameCut(a, f) then assemblies[f.id := Stored(a, f, touch)] else assemblies - {f.id}
    }

    /**
      Takes a fragment into the record of its message, or resets the record if the message was cut differently.
      `full` says that no part is missing any more.
     */
    method TakeIn(slot: ReassemblyRecord, f: Fragment, ghost a: Assembly, ghost assemblies: map<Identity, Assembly>)
      returns (full: bool)
      requires Stores(assemblies) && f.id in assemblies && slot == reassemblies[slotOf[f.id]] && assemblies[f.id] == a
      requires WellFormed(f) && InProgress(a)
      modifies this`slotOf, this`touchCounter, slot
      ensures Stores(Absorbed(assemblies, a, f, touchCounter))
      ensures touchCounter == if SameCut(a, f) then NextTouch(old(touchCounter)) else old(touchCounter)
      ensures full <==> SameCut(a, f) && |Stored(a, f, touchCounter).parts| == a.count
      ensures full ==>
                slotOf == old(slotOf) && slot.StandsFor(f.id, Stored(a, f, touchCounter))
    {
      assert HeldAt(slotOf[f.id], f.id, a);
      if slot.fragmentCount != f.count || slot.chunkBytes != f.chunk {
        Release(slot, f.id, assemblies);
        return false;
      }
      full := StoreFragment(slot, f, a, assemblies);
    }

    /**
      Finds or creates the record of a fragment's message and takes the fragment in. `full` says that the message has
      all its parts, and its record then is `slot`.
     */
    method Place(f: Fragment, ghost t: Table) returns (slot: ReassemblyRecord?, full: bool, ghost victim: Identity)
      requires Stores(t.assemblies) && touchCounter == t.touch && WellFormed(f)
      requires f.id in t.assemblies ==> InProgress(t.assemblies[f.id])
      modifies this`slotOf, this`touchCounter, reassemblies
      ensures MayEvict(t, victim) && EvictsFirst(t, f.id, victim)
      ensures var placed := Placed(t, f, victim);
              && Stores(placed.assemblies) && touchCounter == placed.touch && full == placed.full
              && (full ==> IsFull(slot, placed, f.id))
    {
      full := false;
      slot, victim := FindOrCreateReassembly(f, t);
      if slot != null {
        ghost var kept, a := Kept(t, f.id, victim), SlotFor(t, f).value.0;
        UpdateTwice(kept, f.id, a, Stored(a, f, NextTouch(touchCounter)));
        full := TakeIn(slot, f, a, kept[f.id := a]);
      }
    }

    /** The record of a message that has all its parts. */
    ghost predicate IsFull(slot: ReassemblyRecord?, p: Placement, id: Identity)
      reads this`slotOf, slot
    {
      && Whole(p, id) && slot != null && slot.StandsFor(id, p.assemblies[id])
      && id in slotOf && slotOf[id] < |reassemblies| && slot == reassemblies[slotOf[id]]
    }

    /** Completes the message of a fragment just placed if it has all its parts. */
    method Settle(slot: ReassemblyRecord?, full: bool, ghost p: Placement, ghost id: Identity, ghost log: seq<Identity>)
      returns (ghost out: Outcome)
      requires Stores(p.assemblies) && full == p.full
      requires full ==> IsFull(slot, p, id)
      requires RingIs(log) && !RecentIn(log, id) && Wired()
      modifies this`slotOf, this`recentCursor, this`inbox, reassemblies, recent, radios`attempts, radios`sent
      ensures out == Settled(p, id, log).1
      ensures Stores(Settled(p, id, log).0.assemblies) && RingIs(Settled(p, id, log).0.completed)
      ensures inbox == InboxAfter(hasReceiver, old(inbox), Dispose(localNode, out))
      ensures RadioStates() == RadiosAfter(Wires(), old(RadioStates()), Dispose(localNode, out))
    {
      out := Settled(p, id, log).1;
      if full {
        ghost var d := Complete(slot, id, p.assemblies[id], log);
        label Completed:
        slotOf := slotOf - {id};
        RadiosUntouched@Completed();
        Freed(slot, p.assemblies, id);
      }
    }

    /** What one admitted fragment does: it is placed, and completes its message if that has all its parts now. */
    method TakeFragment(f: Fragment, ghost t: Table)
      returns (ghost victim: Identity, ghost after: Table, ghost out: Outcome)
      requires Refines(t)
      requires WellFormed(f) && !Recent(t, f.id) && (f.id in t.assemblies ==> InProgress(t.assemblies[f.id]))
      modifies this`slotOf, this`touchCounter, this`recentCursor, this`inbox
      modifies reassemblies, recent, radios`attempts, radios`sent
      ensures MayEvict(t, victim) && EvictsFirst(t, f.id, victim) && (after, out) == Accept(t, f, victim)
      ensures Refines(after)
      ensures inbox == InboxAfter(hasReceiver, old(inbox), Dispose(localNode, out))
      ensures RadioStates() == RadiosAfter(Wires(), old(RadioStates()), Dispose(localNode, out))
    {
      var slot, full;
      slot, full, victim := Place(f, t);
      RadiosUntouched();
      AcceptIs(t, f, victim);
      ghost var placed := Placed(t, f, victim);
      out := Settle(slot, full, placed, f.id, t.completed);
      after := Settled(placed, f.id, t.completed).0;
    }

    /** The fragment of a packet, if this node looks at it. */
    method Admitted(data: bytes, ghost t: Table) returns (fragment: Option<Fragment>)
      requires RingIs(t.completed)
      ensures fragment == AdmittedFrom(t, localNode, data)
    {
      var parsed := Parse(data);
      if parsed.None? {
        return None;
      }
      var f := parsed.value;
      var recently := IsRecent(f.id);
      if f.id.source == 0 || f.id.source == localNode || f.id.destination == 0 || recently {
        return None;
      }
      return parsed;
    }

    /** What one packet does. */
    method TakePacket(data: bytes, ghost t: Table) returns (ghost victim: Identity, ghost t': Table, ghost out: Outcome)
      requires Refines(t) && forall id | id in t.assemblies :: InProgress(t.assemblies[id])
      modifies this`slotOf, this`touchCounter, this`recentCursor, this`inbox
      modifies reassemblies, recent, radios`attempts, radios`sent
      ensures Refines(t') && PacketTaken(t, localNode, data, victim, t', out)
      ensures AdmittedFrom(t, localNode, data).Some? ==>
                EvictsFirst(t, AdmittedFrom(t, localNode, data).value.id, victim)
      ensures inbox == InboxAfter(hasReceiver, old(inbox), Dispose(localNode, out))
      ensures RadioStates() == RadiosAfter(Wires(), old(RadioStates()), Dispose(localNode, out))
    {
      var fragment := Admitted(data, t);
      RadiosUntouched();
      if fragment.None? {
        victim, t', out := Identity(0, 0, 0, 0), t, Nothing;
        return;
      }
      label Before:
      victim, t', out := TakeFragment(fragment.value, t);
      assert EvictsFirst@Before(t, fragment.value.id, victim);
    }

    /** Takes one link packet. */
    method ProcessInboundPacket(data: bytes, ghost t: Table)
      returns (ghost victim: Identity, ghost t': Table, ghost out: Outcome)
      requires Models(t)
      modifies this`slotOf, this`touchCounter, this`recentCursor, this`inbox
      modifies reassemblies, recent, radios`attempts, radios`sent
      ensures Models(t') && Arrival(t, localNode, data, t', out)
      ensures AdmittedFrom(t, localNode, data).Some? ==>
                && EvictsFirst(t, AdmittedFrom(t, localNode, data).value.id, victim)
                && Receive(t, localNode, data, victim) == (t', out)
      ensures inbox == old(inbox) +
                if hasReceiver && out.Completed? && out.message.id.destination in {localNode, BROADCAST_NODE}
                then [out.message] else []
      ensures RadioStates() == RadiosAfter(Wires(), old(RadioStates()), Dispose(localNode, out))
    {
      victim, t', out := TakePacket(data, t);
      TakenArrives(t, localNode, data, victim, t', out);
      InboxGains(hasReceiver, old(inbox), localNode, out);
    }

    /** Uses up the next message id; the 16-bit counter skips 0. */
    method TakeMessageId() returns (id: u16)
      modifies this`nextMessageId
      ensures id == old(nextMessageId) && nextMessageId == Network.NextMessageId(id)
    {
      id := nextMessageId;
      nextMessageId := (nextMessageId + 1) % 0x1_0000;
      if nextMessageId == 0 {
        nextMessageId := 1;
      }
    }

    /**
      Sends a message of this node's own; `m` is that message, unless it is turned away: for a missing destination or
      the node itself, or for a size without content. What this changes is nothing that `Models` depends on.
     */
    method Send(destination: u16, channel: u8, payload: Option<bytes>, size: nat)
      returns (result: SendResult, ghost m: Message)
      requires Wired() && (payload.Some? ==> |payload.value| == size)
      modifies this`nextMessageId, radios`attempts, radios`sent
      ensures if destination == 0 || destination == localNode then
                && result == SendResult(InvalidDestination, NativeFailure)
                && nextMessageId == old(nextMessageId) && RadioStates() == old(RadioStates())
              else if payload.None? && size != 0 then
                && result == SendResult(InvalidPayload, NativeFailure)
                && nextMessageId == old(nextMessageId) && RadioStates() == old(RadioStates())
              else
                && m.id == Identity(localNode, destination, channel, old(nextMessageId))
                && m.payload == (if payload.Some? then payload.value else [])
                && nextMessageId == Network.NextMessageId(old(nextMessageId))
                && result == FramedResult(Wires(), old(RadioStates()), destination, size)
                && RadioStates() == StatesAfter(Wires(), old(RadioStates()), m.id, defaultHopLimit, m.payload)
    {
      var content := if payload.Some? then payload.value else [];
      m := Message(Identity(localNode, destination, channel, nextMessageId), content);
      if destination == 0 || destination == localNode {
        return SendResult(InvalidDestination, NativeFailure), m;
      }
      if payload.None? && size != 0 {
        return SendResult(InvalidPayload, NativeFailure), m;
      }
      var messageId := TakeMessageId();
      RadiosUntouched();
      result := SendFramed(Identity(localNode, destination, channel, messageId), defaultHopLimit, content);
    }

    /** Starts every radio, whichever of them fail; what this changes is nothing that `Models` depends on. */
    method Start() returns (success: bool)
      requires Wired()
      modifies radios`started
      ensures success <==> forall r | r in radios :: r.startable
      ensures forall r | r in radios :: r.State() == old(r.State()).(started := r.startable || old(r.started))
    {
      success := true;
      var i := 0;
      while i < |interfaces|
        invariant i <= |interfaces|
        invariant success <==> forall j | 0 <= j < i :: interfaces[j].radio.startable
        invariant forall r | r in radios :: r.attempts == old(r.attempts) && r.sent == old(r.sent)
        invariant forall j | 0 <= j < i ::
                    interfaces[j].radio.started == (interfaces[j].radio.startable || old(interfaces[j].radio.started))
        invariant forall j | i <= j < |interfaces| :: interfaces[j].radio.started == old(interfaces[j].radio.started)
      {
        var started := interfaces[i].radio.Start();
        success := started && success;
        i := i + 1;
      }
    }

    /** Stops every radio. */
    method StopRadios()
      requires Wired()
      modifies radios`started
      ensures forall r | r in radios :: r.State() == old(r.State()).(started := false)
    {
      var i := 0;
      while i < |interfaces|
        invariant i <= |interfaces|
        invariant forall r | r in radios :: r.attempts == old(r.attempts) && r.sent == old(r.sent)
        invariant forall j | 0 <= j < i :: !interfaces[j].radio.started
      {
        interfaces[i].radio.Stop();
        i := i + 1;
      }
    }

    /** Resets every record. */
    method ResetAll()
      requires Laid()
      modifies this`slotOf, reassemblies
      ensures Stores(map[])
    {
      var i := 0;
      while i < |reassemblies|
        invariant i <= |reassemblies|
        invariant forall j | 0 <= j < i :: reassemblies[j].Cleared()
      {
        reassemblies[i].Reset();
        i := i + 1;
      }
      slotOf := map[];
    }

    twostate lemma Emptied(new t: Table)
      requires old(Models(t)) && Stores(map[])
      requires unchanged(this`touchCounter, this`recentCursor, this`interfaces, this`routes, this`radios, recent)
      ensures Models(Stopped(t))
    {
      StoppedKeepsValid(t);
    }

    /** Stops the radios and abandons the messages in progress; the ring of completed messages stays. */
    method Stop(ghost t: Table)
      requires Models(t)
      modifies this`slotOf, reassemblies, radios`started
      ensures Models(Stopped(t))
      ensures forall r | r in radios :: r.State() == old(r.State()).(started := false)
    {
      StopRadios();
      ResetAll();
      Emptied(t);
    }

    constructor (localNode: u16, defaultHopLimit: u8, hasReceiver: bool, interfaces: seq<Interface>,
                 routes: map<u16, Route>)
      requires forall i, j | 0 <= i < j < |interfaces| :: interfaces[i].radio != interfaces[j].radio
      requires forall d | d in routes :: exists i | 0 <= i < |interfaces| :: interfaces[i].radio == routes[d].radio
      ensures Models(EMPTY_TABLE) && nextMessageId == 1 && inbox == []
      ensures this.localNode == localNode && this.defaultHopLimit == defaultHopLimit && this.hasReceiver == hasReceiver
      ensures Wires() == Wiring(interfaces, routes)
      ensures fresh(reassemblies) && fresh(recent)
    {
      var records: seq<ReassemblyRecord> := [];
      while |records| < MAX_REASSEMBLIES
        invariant |records| <= MAX_REASSEMBLIES && fresh(records)
        invariant forall i | 0 <= i < |records| :: records[i].Cleared()
        invariant forall i, j | 0 <= i < j < |records| :: records[i] != records[j]
      {
        var record := new ReassemblyRecord();
        records := records + [record];
      }
      this.localNode, this.defaultHopLimit, this.hasReceiver := localNode, defaultHopLimit, hasReceiver;
      this.interfaces, this.routes, reassemblies := interfaces, routes, records;
      recent := new Option<Identity>[MAX_RECENT_MESSAGES](_ => None);
      nextMessageId, inbox, recentCursor, touchCounter := 1, [], 0, 0;
      slotOf, radios := map[], set i | 0 <= i < |interfaces| :: interfaces[i].radio;
      new;
      var none: seq<Identity> := [];
      assert recent[..] == RingAfter(none, MAX_RECENT_MESSAGES, SIZE_MODULUS);
      EmptyIsValid();
    }
  }
}
