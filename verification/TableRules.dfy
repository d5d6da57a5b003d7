/** Rules that every packet at a node obeys: what is ignored, dropped, evicted, kept and abandoned. */
module TableRules {
  import opened RadioTypes
  import opened TransportWire
  import opened Reassembly
  import opened ReassemblyRuns
  import opened GenuineMessages

  /** Bytes that are no frame do nothing; nor do frames from nobody, from the node, to nobody or of recent messages. */
  lemma IgnoredPackets(t: Table, local: u16, data: bytes, victim: Identity)
    requires Valid(t)
    requires Parse(data).Some? ==>
               var id := Parse(data).value.id;
               id.source == 0 || id.source == local || id.destination == 0 || Recent(t, id)
    ensures Receive(t, local, data, victim) == (t, Nothing)
  {
  }

  /**
    A fragment takes no message's place but one victim's, and that exactly if its message is new and the table full:
    even if its own buffer then turns out to be too large.
   */
  lemma NewcomerEvicts(t: Table, f: Fragment, victim: Identity, x: Identity)
    requires Valid(t) && WellFormed(f) && x != f.id
    ensures var t' := Accept(t, f, victim).0;
            && (x in t'.assemblies <==>
                  x in t.assemblies && !(f.id !in t.assemblies && |t.assemblies| == MAX_REASSEMBLIES && x == victim))
            && (x in t'.assemblies ==> t'.assemblies[x] == t.assemblies[x])
  {
    AcceptFrame(t, f, victim, x);
  }

  /** A fragment of a message cut differently throws away what there was of the message, and is not taken in either. */
  lemma DifferentCutDrops(t: Table, f: Fragment, victim: Identity)
    requires Valid(t) && WellFormed(f) && f.id in t.assemblies
    requires t.assemblies[f.id].count != f.count || t.assemblies[f.id].chunk != f.chunk
    ensures Accept(t, f, victim) == (t.(assemblies := t.assemblies - {f.id}), Nothing)
  {
  }

  // ----- copies of a fragment -----

  function StoredAll(a: Assembly, fs: seq<Fragment>, touch: u32): Assembly
    requires forall f | f in fs :: WellFormed(f)
  {
    if fs == [] then a else Stored(StoredAll(a, fs[..|fs| - 1], touch), fs[|fs| - 1], touch)
  }

  /** What the first fragment with this index carries. */
  function FirstCopy(fs: seq<Fragment>, index: nat): Option<bytes> {
    if fs == [] then None
    else
      var last := |fs| - 1;
      if FirstCopy(fs[..last], index).None? && fs[last].index == index then Some(fs[last].payload)
      else FirstCopy(fs[..last], index)
  }

  /** The length of the latest fragment with this index. */
  function LatestLength(fs: seq<Fragment>, index: nat): nat {
    if fs == [] then 0
    else
      var last := |fs| - 1;
      if fs[last].index == index then |fs[last].payload| else LatestLength(fs[..last], index)
  }

  /** Of several copies of a fragment the bytes of the first count, but the length of the latest copy of the last. */
  lemma {:induction false} FirstCopyCounts(opener: Fragment, fs: seq<Fragment>, touch: u32)
    requires WellFormed(opener) && forall f | f in fs :: WellFormed(f) && f.count == opener.count
    ensures var a := StoredAll(Fresh(opener, touch), fs, touch);
            && a.count == opener.count && a.hop == opener.hop
            && (forall i: nat :: i in a.parts <==> FirstCopy(fs, i).Some?)
            && (forall i: nat :: i in a.parts ==> a.parts[i] == FirstCopy(fs, i).value)
            && a.last == LatestLength(fs, opener.count - 1)
  {
    if fs != [] {
      assert fs[|fs| - 1] in fs;
      FirstCopyCounts(opener, fs[..|fs| - 1], touch);
    }
  }

  // ----- what a stop abandons -----

  function IndexOf(e: Event, id: Identity): set<nat> {
    if Subject(e) == Some(id) then {Parse(e.data).value.index} else {}
  }

  /** The indices that frames of `id` brought in with `events[lo..hi]`. */
  function IndicesBetween(events: seq<Event>, id: Identity, lo: nat, hi: nat): set<nat>
    requires hi <= |events|
    decreases hi
  {
    if hi <= lo then {} else IndicesBetween(events, id, lo, hi - 1) + IndexOf(events[hi - 1], id)
  }

  lemma IndicesNext(events: seq<Event>, id: Identity, lo: nat, i: nat)
    requires lo <= i < |events|
    ensures IndicesBetween(events, id, lo, i + 1) == IndicesBetween(events, id, lo, i) + IndexOf(events[i], id)
  {
  }

  /** The packet is a frame of `id`, and all indices that it says there are, are in `s`. */
  ghost predicate Completing(e: Event, id: Identity, s: set<nat>) {
    Subject(e) == Some(id) && forall k: nat :: k < Parse(e.data).value.count ==> k in s
  }

  lemma PacketHolds(t: Table, local: u16, data: bytes, victim: Identity, id: Identity)
    requires Valid(t) && MayEvict(t, victim)
    ensures var (t', out) := Receive(t, local, data, victim);
            && PartsHeld(t', id) <= PartsHeld(t, id) + IndexOf(Packet(data), id)
            && (Completes(out, id) ==> Completing(Packet(data), id, PartsHeld(t, id) + IndexOf(Packet(data), id)))
  {
    var r := Parse(data);
    if r.Some? && Admits(t, local, r.value) {
      if r.value.id == id {
        OwnPacketHolds(t, r.value, victim);
      } else {
        AcceptFrame(t, r.value, victim, id);
      }
    }
  }

  lemma OwnPacketHolds(t: Table, f: Fragment, victim: Identity)
    requires Valid(t) && WellFormed(f)
    ensures var (t', out) := Accept(t, f, victim);
            && PartsHeld(t', f.id) <= PartsHeld(t, f.id) + {f.index}
            && (out.Completed? ==> forall k: nat :: k < f.count ==> k in PartsHeld(t, f.id) + {f.index})
  {
    KeptIsOwn(t, f.id, victim);
    if SlotFor(t, f).Some? {
      var (a, found) := SlotFor(t, f).value;
      if a.count == f.count && a.chunk == f.chunk {
        SlotHolds(t, f, a, found);
      }
    }
  }

  lemma SlotHolds(t: Table, f: Fragment, a: Assembly, found: u32)
    requires Valid(t) && WellFormed(f) && SlotFor(t, f) == Some((a, found)) && a.count == f.count && a.chunk == f.chunk
    ensures var a' := Stored(a, f, NextTouch(found));
            && a'.parts.Keys == PartsHeld(t, f.id) + {f.index}
            && (|a'.parts| == a'.count ==> forall k: nat :: k < f.count ==> k in PartsHeld(t, f.id) + {f.index})
  {
    StoredIsValid(a, f, NextTouch(found));
  }

  lemma KeptIsOwn(t: Table, id: Identity, victim: Identity)
    ensures id in Kept(t, id, victim) ==> id in t.assemblies && Kept(t, id, victim)[id] == t.assemblies[id]
  {
  }

  lemma StepHolds(t: Table, local: u16, e: Event, t': Table, out: Outcome, id: Identity)
    requires Step(t, local, e, t', out)
    ensures PartsHeld(t', id) <= PartsHeld(t, id) + IndexOf(e, id)
    ensures Completes(out, id) ==> Completing(e, id, PartsHeld(t, id) + IndexOf(e, id))
  {
    if e.Packet? {
      var victim :| MayEvict(t, victim) && Receive(t, local, e.data, victim) == (t', out);
      PacketHolds(t, local, e.data, victim, id);
    }
  }

  /** The indices of `id` held before every event of a run, and after it. */
  ghost function Holdings(r: Run, id: Identity): (held: seq<set<nat>>)
    ensures |held| == |r.tables|
  {
    seq(|r.tables|, (i: nat) requires i < |r.tables| => PartsHeld(r.tables[i], id))
  }

  ghost predicate Gains(held: seq<set<nat>>, events: seq<Event>, id: Identity) {
    && |held| == |events| + 1
    && forall i {:trigger events[i]} :: 0 <= i < |events| ==> held[i + 1] <= held[i] + IndexOf(events[i], id)
  }

  lemma RunGains(r: Run, id: Identity)
    requires r.Steps()
    ensures Gains(Holdings(r, id), r.events, id)
  {
    var held := Holdings(r, id);
    forall i | 0 <= i < |r.events| ensures held[i + 1] <= held[i] + IndexOf(r.events[i], id) {
      StepHolds(r.tables[i], r.local, r.events[i], r.tables[i + 1], r.outs[i], id);
    }
  }

  /** What is held of a message that was not in progress at `s` has arrived since. */
  lemma {:induction false} HeldSince(held: seq<set<nat>>, events: seq<Event>, id: Identity, s: nat, j: nat)
    requires Gains(held, events, id) && s <= j <= |events| && held[s] == {}
    ensures held[j] <= IndicesBetween(events, id, s, j)
    decreases j
  {
    if s < j {
      HeldSince(held, events, id, s, j - 1);
      IndicesNext(events, id, s, j - 1);
      assert held[j - 1 + 1] <= held[j - 1] + IndexOf(events[j - 1], id);
    }
  }

  lemma MoreComplete(e: Event, id: Identity, held: set<nat>, indices: set<nat>)
    requires Completing(e, id, held + IndexOf(e, id)) && held <= indices
    ensures Completing(e, id, indices + IndexOf(e, id))
  {
    forall k: nat | k < Parse(e.data).value.count ensures k in indices + IndexOf(e, id) {
      assert k in held + IndexOf(e, id);
    }
  }

  lemma NotInProgress(r: Run, id: Identity, s: nat)
    requires r.Steps() && s <= |r.events|
    requires id !in r.tables[s].assemblies || (0 < s && r.events[s - 1].Stop?)
    ensures PartsHeld(r.tables[s], id) == {}
  {
    if 0 < s && r.events[s - 1].Stop? {
      assert Step(r.tables[s - 1], r.local, r.events[s - 1], r.tables[s], r.outs[s - 1]);
    }
  }

  /**
    A message not in progress at `s` completes only once every one of its indices has arrived since. A stop abandons
    what is in progress, so nothing that arrived before it is part of what completes after it.
   */
  lemma CompletesFromSince(r: Run, id: Identity, s: nat, i: nat)
    requires r.Steps() && s <= i < |r.events| && r.CompletesAt(i, id)
    requires id !in r.tables[s].assemblies || (0 < s && r.events[s - 1].Stop?)
    ensures Completing(r.events[i], id, IndicesBetween(r.events, id, s, i + 1))
  {
    var held, indices := PartsHeld(r.tables[i], id), IndicesBetween(r.events, id, s, i);
    NotInProgress(r, id, s);
    StepHolds(r.tables[i], r.local, r.events[i], r.tables[i + 1], r.outs[i], id);
    IndicesNext(r.events, id, s, i);
    RunGains(r, id);
    HeldSince(Holdings(r, id), r.events, id, s, i);
    MoreComplete(r.events[i], id, held, indices);
  }
}
