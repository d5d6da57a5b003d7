/**
  The receiving half of the transport as a transition system: a bounded table of messages in progress with
  least-recently-touched eviction, and the ring of recently completed messages that suppresses duplicates.
 */
module Reassembly {
  import opened Arithmetic
  import opened RadioTypes
  import opened Fragmentation
  import opened TransportWire
  import opened RecentRing

  datatype Message = Message(id: Identity, payload: bytes)

  /**
    A message in progress: the first part received for each index, and the length claimed by the most recent
    copy of the last fragment. `hop` comes from the fragment that opened the assembly.
   */
  datatype Assembly = Assembly(count: u8, chunk: u8, hop: u8, last: u8, touch: u32, parts: map<nat, bytes>)

  /** `completed` lists every completion since construction; the ring is what is left of it. */
  datatype Table = Table(assemblies: map<Identity, Assembly>, completed: seq<Identity>, touch: u32)

  datatype Outcome = Nothing | Completed(message: Message, hop: u8)

  predicate Completes(out: Outcome, id: Identity) {
    out.Completed? && out.message.id == id
  }

  const EMPTY_TABLE := Table(map[], [], 0)

  /** What becomes of a completed message at a node: handed to the receiver, sent on, or dropped. */
  datatype Disposal = Deliver(message: Message) | Forward(message: Message, hop: u8) | Discard

  function Dispose(local: u16, out: Outcome): Disposal {
    if out.Nothing? then Discard
    else if out.message.id.destination == local || out.message.id.destination == BROADCAST_NODE then
      Deliver(out.message)
    else if 0 < out.hop then Forward(out.message, out.hop - 1)
    else Discard
  }

  /** The ring still holds `id` after the completions in `log`. */
  predicate RecentIn(log: seq<Identity>, id: Identity) {
    Holds(log, MAX_RECENT_MESSAGES, SIZE_MODULUS, id)
  }

  predicate Recent(t: Table, id: Identity) {
    RecentIn(t.completed, id)
  }

  /** The 32-bit counter's increment, which wraps to zero. */
  function NextTouch(touch: u32): (next: u32)
    ensures next == (touch + 1) % 0x1_0000_0000
  {
    if touch + 1 == U32_MODULUS then 0 else touch + 1
  }

  // ----- what holds between calls -----

  ghost predicate ValidAssembly(a: Assembly) {
    && 0 < a.count && 0 < a.chunk && Fits(a.count, a.chunk)
    && a.last <= a.chunk
    && 0 < |a.parts| < a.count
    && forall i :: i in a.parts ==> i < a.count && |a.parts[i]| <= a.chunk
  }

  ghost predicate Valid(t: Table) {
    && |t.assemblies| <= MAX_REASSEMBLIES
    && (forall id :: id in t.assemblies ==> ValidAssembly(t.assemblies[id]) && !Recent(t, id))
    && Admissible(t.completed, MAX_RECENT_MESSAGES, SIZE_MODULUS)
  }

  // ----- one frame -----

  /** The frames a node looks at: from another node, addressed, and not of a recently completed message. */
  predicate Admits(t: Table, local: u16, f: Fragment) {
    f.id.source != 0 && f.id.source != local && f.id.destination != 0 && !Recent(t, f.id)
  }

  /** `victim` may be evicted: no assembly was touched longer ago. */
  ghost predicate Oldest(t: Table, victim: Identity) {
    victim in t.assemblies &&
    forall id :: id in t.assemblies ==> t.assemblies[victim].touch <= t.assemblies[id].touch
  }

  ghost predicate MayEvict(t: Table, victim: Identity) {
    |t.assemblies| < MAX_REASSEMBLIES || Oldest(t, victim)
  }

  /** The assemblies once room was made for `id`. */
  function Kept(t: Table, id: Identity, victim: Identity): map<Identity, Assembly> {
    if id in t.assemblies || |t.assemblies| < MAX_REASSEMBLIES then t.assemblies else t.assemblies - {victim}
  }

  function Fresh(f: Fragment, touch: u32): Assembly {
    Assembly(f.count, f.chunk, f.hop, 0, touch, map[])
  }

  /** The assembly a fragment goes to, and the touch counter after finding it; none if it would be too large. */
  function SlotFor(t: Table, f: Fragment): Option<(Assembly, u32)> {
    if f.id in t.assemblies then Some((t.assemblies[f.id], t.touch))
    else if !Fits(f.count, f.chunk) then None
    else Some((Fresh(f, NextTouch(t.touch)), NextTouch(t.touch)))
  }

  /** The first part received for an index stays; the last fragment's length is the latest one. */
  function Stored(a: Assembly, f: Fragment, touch: u32): Assembly
    requires WellFormed(f)
  {
    a.(touch := touch,
       parts := if f.index in a.parts then a.parts else a.parts[f.index := f.payload],
       last := if f.index == f.count - 1 then |f.payload| else a.last)
  }

  function Total(a: Assembly): nat
    requires 0 < a.count
  {
    MulMono(0, a.count - 1, a.chunk);
    (a.count - 1) * a.chunk + a.last
  }

  function MessageOf(id: Identity, a: Assembly): Message
    requires 0 < a.count && 0 < a.chunk && a.last <= a.chunk
  {
    Message(id, Assembled(a.parts, a.count, a.chunk, a.last))
  }

  function Accept(t: Table, f: Fragment, victim: Identity): (Table, Outcome)
    requires WellFormed(f)
    requires f.id in t.assemblies ==> t.assemblies[f.id].last <= t.assemblies[f.id].chunk
  {
    var kept := Kept(t, f.id, victim);
    match SlotFor(t, f)
    case None => (t.(assemblies := kept), Nothing)
    case Some((a, found)) =>
      if a.count != f.count || a.chunk != f.chunk then
        (Table(kept - {f.id}, t.completed, found), Nothing)
      else
        var touch := NextTouch(found);
        var a' := Stored(a, f, touch);
        if |a'.parts| == a'.count then
          (Table(kept - {f.id}, t.completed + [f.id], touch), Completed(MessageOf(f.id, a'), a'.hop))
        else
          (Table(kept[f.id := a'], t.completed, touch), Nothing)
  }

  /** What one link packet does to the table. */
  function Receive(t: Table, local: u16, data: bytes, victim: Identity): (Table, Outcome)
    requires Valid(t)
  {
    match Parse(data)
    case None => (t, Nothing)
    case Some(f) => if Admits(t, local, f) then Accept(t, f, victim) else (t, Nothing)
  }

  /** One packet arriving, with any victim the eviction rule allows. */
  ghost predicate Arrival(t: Table, local: u16, data: bytes, t': Table, out: Outcome)
    requires Valid(t)
  {
    exists victim :: MayEvict(t, victim) && Receive(t, local, data, victim) == (t', out)
  }

  /** Stopping the transport abandons what is in progress and nothing else. */
  function Stopped(t: Table): Table {
    t.(assemblies := map[])
  }

  // ----- the invariant is kept -----

  lemma RecentAppend(t: Table, x: Identity, id: Identity)
    requires id != x && !Recent(t, id)
    ensures !RecentIn(t.completed + [x], id)
  {
    RingAppend(t.completed, x, MAX_RECENT_MESSAGES, SIZE_MODULUS);
  }

  lemma RemoveOne<K, V>(m: map<K, V>, k: K)
    ensures k in m ==> |m - {k}| == |m| - 1
    ensures k !in m ==> m - {k} == m
  {
    assert (m - {k}).Keys == m.Keys - {k};
  }

  /** What the table keeps over every packet, whatever its bytes. */
  lemma ReceiveKeepsValid(t: Table, local: u16, data: bytes, victim: Identity)
    requires Valid(t) && MayEvict(t, victim)
    ensures Valid(Receive(t, local, data, victim).0)
  {
    var r := Parse(data);
    if r.Some? && Admits(t, local, r.value) {
      AcceptKeepsValid(t, r.value, victim);
    }
  }

  lemma AcceptKeepsValid(t: Table, f: Fragment, victim: Identity)
    requires Valid(t) && WellFormed(f) && MayEvict(t, victim) && !Recent(t, f.id)
    ensures Valid(Accept(t, f, victim).0)
  {
    AcceptKeepsSize(t, f, victim);
    AcceptKeepsAssemblies(t, f, victim);
    AcceptKeepsRing(t, f, victim);
  }

  lemma AcceptKeepsSize(t: Table, f: Fragment, victim: Identity)
    requires WellFormed(f) && MayEvict(t, victim) && |t.assemblies| <= MAX_REASSEMBLIES
    requires f.id in t.assemblies ==> t.assemblies[f.id].last <= t.assemblies[f.id].chunk
    ensures |Accept(t, f, victim).0.assemblies| <= MAX_REASSEMBLIES
  {
    KeptHasRoom(t, f.id, victim);
    if SlotFor(t, f).Some? {
      var (a, found) := SlotFor(t, f).value;
      UpdateSize(Kept(t, f.id, victim), f.id, Stored(a, f, NextTouch(found)));
    }
  }

  lemma UpdateSize<K, V>(m: map<K, V>, k: K, v: V)
    ensures |m[k := v]| == |m - {k}| + 1
  {
    assert m[k := v] - {k} == m - {k};
    RemoveOne(m[k := v], k);
  }

  lemma AcceptKeepsAssemblies(t: Table, f: Fragment, victim: Identity)
    requires WellFormed(f)
    requires f.id in t.assemblies ==> ValidAssembly(t.assemblies[f.id])
    requires forall id :: id in t.assemblies ==> ValidAssembly(t.assemblies[id])
    ensures var t' := Accept(t, f, victim).0;
            forall id :: id in t'.assemblies ==> ValidAssembly(t'.assemblies[id])
  {
    var t' := Accept(t, f, victim).0;
    forall id | id in t'.assemblies ensures ValidAssembly(t'.assemblies[id]) {
      if id == f.id {
        var (a, found) := SlotFor(t, f).value;
        StoredIsValid(a, f, NextTouch(found));
      }
    }
  }

  lemma KeptHasRoom(t: Table, id: Identity, victim: Identity)
    requires |t.assemblies| <= MAX_REASSEMBLIES && MayEvict(t, victim)
    ensures var kept := Kept(t, id, victim);
            && |kept - {id}| <= |kept| <= MAX_REASSEMBLIES
            && (id !in kept ==> |kept| < MAX_REASSEMBLIES)
            && (forall x :: x in kept ==> x in t.assemblies && kept[x] == t.assemblies[x])
            && (id in kept <==> id in t.assemblies)
  {
    RemoveOne(t.assemblies, victim);
    RemoveOne(Kept(t, id, victim), id);
  }

  lemma AcceptKeepsRing(t: Table, f: Fragment, victim: Identity)
    requires Valid(t) && WellFormed(f) && !Recent(t, f.id)
    ensures var t' := Accept(t, f, victim).0;
            && Admissible(t'.completed, MAX_RECENT_MESSAGES, SIZE_MODULUS)
            && forall id :: id in t'.assemblies ==> !Recent(t', id)
  {
    var t' := Accept(t, f, victim).0;
    if t'.completed == t.completed {
    } else {
      assert t'.completed == t.completed + [f.id];
      AdmissibleAppend(t.completed, MAX_RECENT_MESSAGES, SIZE_MODULUS, f.id);
      forall id | id in t'.assemblies ensures !Recent(t', id) {
        RecentAppend(t, f.id, id);
      }
    }
  }

  lemma EmptyIsValid()
    ensures Valid(EMPTY_TABLE)
  {
  }

  lemma StoppedKeepsValid(t: Table)
    requires Valid(t)
    ensures Valid(Stopped(t))
  {
  }

  /** Storing a part keeps the assembly well formed unless it completes it. */
  lemma StoredIsValid(a: Assembly, f: Fragment, touch: u32)
    requires WellFormed(f) && a.count == f.count && a.chunk == f.chunk && Fits(a.count, a.chunk)
    requires a.last <= a.chunk && |a.parts| < a.count
    requires forall i :: i in a.parts ==> i < a.count && |a.parts[i]| <= a.chunk
    ensures var a' := Stored(a, f, touch);
            && |a'.parts| <= a'.count
            && (|a'.parts| < a'.count ==> ValidAssembly(a'))
            && (|a'.parts| == a'.count ==> forall i: nat :: i < a'.count ==> i in a'.parts)
  {
    var a' := Stored(a, f, touch);
    CoversAll(a'.parts.Keys, a'.count);
    assert |a'.parts.Keys| == |a'.parts|;
    assert f.index in a'.parts.Keys;
  }

  /** A completion is of a message in progress or of a fragment alone, and fits the receiver's bound. */
  lemma CompletionFits(t: Table, local: u16, data: bytes, victim: Identity)
    requires Valid(t) && MayEvict(t, victim)
    ensures match Receive(t, local, data, victim)
            case (t', Nothing) => t'.completed == t.completed
            case (t', Completed(m, hop)) =>
              && t'.completed == t.completed + [m.id]
              && m.id !in t'.assemblies && !Recent(t, m.id)
              && |m.payload| <= MAX_MESSAGE_BYTES
              && m.id.source !in {0, local} && m.id.destination != 0
  {
    var r := Parse(data);
    if r.Some? && Admits(t, local, r.value) && SlotFor(t, r.value).Some? {
      var (a, found) := SlotFor(t, r.value).value;
      if a.count == r.value.count && a.chunk == r.value.chunk {
        MessageFits(r.value.id, Stored(a, r.value, NextTouch(found)));
      }
    }
  }

  lemma MessageFits(id: Identity, a: Assembly)
    requires 0 < a.count && 0 < a.chunk && a.last <= a.chunk && Fits(a.count, a.chunk)
    ensures |MessageOf(id, a).payload| == Total(a) <= MAX_MESSAGE_BYTES
  {
    assert (a.count - 1) * a.chunk + a.chunk == a.count * a.chunk;
  }

  // ----- how a packet treats the assemblies it is not about -----

  lemma AcceptFrame(t: Table, f: Fragment, victim: Identity, x: Identity)
    requires WellFormed(f) && x != f.id
    requires f.id in t.assemblies ==> t.assemblies[f.id].last <= t.assemblies[f.id].chunk
    ensures var t', kept := Accept(t, f, victim).0, Kept(t, f.id, victim);
            && (x in t'.assemblies <==> x in kept)
            && (x in kept ==> t'.assemblies[x] == kept[x])
  {
  }

  lemma AcceptTouch(t: Table, f: Fragment, victim: Identity)
    requires WellFormed(f)
    requires f.id in t.assemblies ==> t.assemblies[f.id].last <= t.assemblies[f.id].chunk
    requires t.touch + 2 < U32_MODULUS
    ensures var t' := Accept(t, f, victim).0;
            && t'.touch in {t.touch, t.touch + 1, t.touch + 2}
            && (f.id in t'.assemblies ==> t'.touch != t.touch && t'.assemblies[f.id].touch == t'.touch)
  {
    assert NextTouch(t.touch) == t.touch + 1;
    assert NextTouch(t.touch + 1) == t.touch + 2;
  }

  // ----- a packet can always be processed -----

  lemma {:induction false} OldestExists(assemblies: map<Identity, Assembly>) returns (victim: Identity)
    requires assemblies != map[]
    ensures victim in assemblies && forall id :: id in assemblies ==> assemblies[victim].touch <= assemblies[id].touch
  {
    var first :| first in assemblies;
    var rest := assemblies - {first};
    victim := first;
    if rest != map[] {
      var other := OldestExists(rest);
      victim := if rest[other].touch < assemblies[first].touch then other else first;
    }
    assert forall id :: id in assemblies ==> id == first || id in rest;
  }

  /** Some assembly may always be evicted, so a packet can always be processed. */
  lemma VictimExists(t: Table) returns (victim: Identity)
    requires |t.assemblies| <= MAX_REASSEMBLIES
    ensures MayEvict(t, victim)
  {
    if t.assemblies == map[] {
      victim := Identity(0, 0, 0, 0);
    } else {
      victim := OldestExists(t.assemblies);
    }
  }
}
