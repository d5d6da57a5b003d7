/**
  A network that nobody sends into falls silent: every packet processed lowers a weight computed from the frames in
  flight and the messages in progress, even with routing loops and after duplicates have been forgotten.
 */
module Quiescence {
  import opened Arithmetic
  import opened RadioTypes
  import opened TransportWire
  import opened Reassembly
  import opened Network

  // ----- sums over maps -----

  ghost function SumMap<K(!new), V>(m: map<K, V>, f: V -> nat): nat {
    if m == map[] then 0
    else
      var k :| k in m;
      f(m[k]) + SumMap(m - {k}, f)
  }

  lemma {:induction false} SumWithout<K(!new), V>(m: map<K, V>, f: V -> nat, k: K)
    requires k in m
    ensures SumMap(m, f) == f(m[k]) + SumMap(m - {k}, f)
  {
    var x :| x in m && SumMap(m, f) == f(m[x]) + SumMap(m - {x}, f);
    if x != k {
      SumWithout(m - {x}, f, k);
      SumWithout(m - {k}, f, x);
      assert m - {x} - {k} == m - {k} - {x};
    }
  }

  lemma SumUpdate<K(!new), V>(m: map<K, V>, f: V -> nat, k: K, v: V)
    ensures SumMap(m[k := v], f) == f(v) + SumMap(m - {k}, f)
    ensures SumMap(m, f) == SumMap(m - {k}, f) + if k in m then f(m[k]) else 0
  {
    SumWithout(m[k := v], f, k);
    assert m[k := v] - {k} == m - {k};
    if k in m {
      SumWithout(m, f, k);
    } else {
      assert m - {k} == m;
    }
  }

  // ----- the weight -----

  /**
    The weight of a message in progress with hop limit `hop`, when one packet puts at most `b` frame copies on the
    air.
   */
  function SlotWeight(hop: nat, b: nat): nat {
    if hop == 0 then 0 else b * (SlotWeight(hop - 1, b) + 1)
  }

  function FrameWeight(data: bytes, b: nat): nat {
    match Parse(data)
    case None => 1
    case Some(f) => SlotWeight(f.hop, b) + 1
  }

  function AirWeight(air: seq<bytes>, b: nat): nat {
    if air == [] then 0 else AirWeight(air[..|air| - 1], b) + FrameWeight(air[|air| - 1], b)
  }

  ghost function AssemblyWeight(b: nat): Assembly -> nat {
    (a: Assembly) => SlotWeight(a.hop, b)
  }

  ghost function TableWeight(assemblies: map<Identity, Assembly>, b: nat): nat {
    SumMap(assemblies, AssemblyWeight(b))
  }

  ghost function NodeWeight(b: nat): Node -> nat {
    (node: Node) => TableWeight(node.table.assemblies, b)
  }

  ghost function Weight(n: Network, b: nat): nat {
    AirWeight(n.air, b) + SumMap(n.nodes, NodeWeight(b))
  }

  lemma {:induction false} AirAppend(x: seq<bytes>, y: seq<bytes>, b: nat)
    ensures AirWeight(x + y, b) == AirWeight(x, b) + AirWeight(y, b)
  {
    if y == [] {
      assert x + y == x;
    } else {
      assert (x + y)[..|x + y| - 1] == x + y[..|y| - 1];
      AirAppend(x, y[..|y| - 1], b);
    }
  }

  lemma AirWithout(air: seq<bytes>, k: nat, b: nat)
    requires k < |air|
    ensures AirWeight(air, b) == AirWeight(Without(air, k), b) + FrameWeight(air[k], b)
  {
    assert air == air[..k] + ([air[k]] + air[k + 1..]);
    AirAppend(air[..k], [air[k]] + air[k + 1..], b);
    AirAppend([air[k]], air[k + 1..], b);
    AirAppend(air[..k], air[k + 1..], b);
    var one := [air[k]];
    assert |one[..0]| == 0;
  }

  /** The frames sent on for one message all carry its lowered hop limit. */
  lemma {:induction false} OnwardWeighs(frames: seq<bytes>, m: Message, hop: u8, b: nat)
    requires Emission(frames, m, hop)
    ensures AirWeight(frames, b) == |frames| * (SlotWeight(hop, b) + 1)
  {
    if frames != [] {
      var last, w := |frames| - 1, SlotWeight(hop, b) + 1;
      OnwardWeighs(frames[..last], m, hop, b);
      EmissionHop(frames[last], m, hop);
      Distribute(last, 1, w);
    }
  }

  lemma EmissionHop(data: bytes, m: Message, hop: u8)
    requires FrameOf(data, m, hop)
    ensures Parse(data).Some? && Parse(data).value.hop == hop
  {
    var chunk: u8 :| Sendable(|m.payload|, chunk) && data in Frames(m.id, m.payload, chunk, hop);
    FramesCarryPayload(m.id, m.payload, chunk, hop);
  }

  // ----- one packet -----

  /** What a packet may still set in motion. */
  function Aftermath(local: u16, out: Outcome, b: nat): nat {
    match Dispose(local, out)
    case Forward(_, hop) => b * (SlotWeight(hop, b) + 1)
    case _ => 0
  }

  lemma PacketLightens(t: Table, local: u16, data: bytes, victim: Identity, b: nat)
    requires Valid(t)
    ensures var (t', out) := Reassembly.Receive(t, local, data, victim);
            TableWeight(t'.assemblies, b) + Aftermath(local, out, b) <
              TableWeight(t.assemblies, b) + FrameWeight(data, b)
  {
    var r := Parse(data);
    if r.Some? && Admits(t, local, r.value) {
      AcceptLightens(t, local, r.value, victim, b);
    }
  }

  lemma KeptLightens(t: Table, id: Identity, victim: Identity, b: nat)
    ensures TableWeight(Kept(t, id, victim), b) <= TableWeight(t.assemblies, b)
  {
    if victim in t.assemblies {
      SumWithout(t.assemblies, AssemblyWeight(b), victim);
    } else {
      assert t.assemblies - {victim} == t.assemblies;
    }
  }

  /** What the message `id` contributes to the weight of the table. */
  lemma SlotWeighs(kept: map<Identity, Assembly>, id: Identity, a: Assembly, b: nat)
    ensures TableWeight(kept[id := a], b) == TableWeight(kept - {id}, b) + SlotWeight(a.hop, b)
    ensures TableWeight(kept, b) == TableWeight(kept - {id}, b) + if id in kept then SlotWeight(kept[id].hop, b) else 0
  {
    SumUpdate(kept, AssemblyWeight(b), id, a);
  }

  /** The assembly a fragment goes to, and where it ends up: out of the table, or back under its identity. */
  lemma AcceptShape(t: Table, f: Fragment, victim: Identity, a: Assembly, found: u32)
    requires WellFormed(f) && SlotFor(t, f) == Some((a, found))
    requires f.id in t.assemblies ==> t.assemblies[f.id].last <= t.assemblies[f.id].chunk
    ensures var (t', out), kept := Accept(t, f, victim), Kept(t, f.id, victim);
            || (t'.assemblies == kept - {f.id} && (out.Completed? ==> out.hop == a.hop))
            || (t'.assemblies == kept[f.id := Stored(a, f, NextTouch(found))] && out.Nothing?)
    ensures var kept := Kept(t, f.id, victim);
            if f.id in kept then kept[f.id] == a else a.hop == f.hop
  {
  }

  lemma AcceptLightens(t: Table, local: u16, f: Fragment, victim: Identity, b: nat)
    requires WellFormed(f)
    requires f.id in t.assemblies ==> t.assemblies[f.id].last <= t.assemblies[f.id].chunk
    ensures var (t', out) := Accept(t, f, victim);
            TableWeight(t'.assemblies, b) + Aftermath(local, out, b) <=
              TableWeight(t.assemblies, b) + SlotWeight(f.hop, b)
  {
    KeptLightens(t, f.id, victim, b);
    if SlotFor(t, f).Some? {
      var (a, found) := SlotFor(t, f).value;
      AcceptShape(t, f, victim, a, found);
      SlotWeighs(Kept(t, f.id, victim), f.id, Stored(a, f, NextTouch(found)), b);
      AftermathBound(local, Accept(t, f, victim).1, b);
    }
  }

  /** A completed message sets in motion no more than it weighed in progress. */
  lemma AftermathBound(local: u16, out: Outcome, b: nat)
    ensures Aftermath(local, out, b) <= if out.Completed? then SlotWeight(out.hop, b) else 0
  {
  }

  // ----- the network -----

  /** No Sends and no copies made by the medium; a packet puts at most `b` frame copies on the air. */
  predicate Quiet(step: Step, b: nat) {
    !step.Send? && !step.Repeat? && (step.Receive? ==> |step.frames| <= b)
  }

  lemma ReceiveLightens(n: Network, v: u16, k: nat, victim: Identity, frames: seq<bytes>, n': Network, b: nat)
    requires ReceiveStep(n, v, k, victim, frames, n') && |frames| <= b
    ensures Weight(n', b) < Weight(n, b)
  {
    var t := n.nodes[v].table;
    var (t', out) := Reassembly.Receive(t, v, n.air[k], victim);
    PacketLightens(t, v, n.air[k], victim, b);
    OnwardIsAftermath(v, out, frames, b);
    AirWithout(n.air, k, b);
    AirAppend(Without(n.air, k), frames, b);
    SumUpdate(n.nodes, NodeWeight(b), v, n.nodes[v].(table := t'));
  }

  lemma OnwardIsAftermath(v: u16, out: Outcome, frames: seq<bytes>, b: nat)
    requires Onward(v, out, frames) && |frames| <= b
    ensures AirWeight(frames, b) <= Aftermath(v, out, b)
  {
    if Dispose(v, out).Forward? {
      var hop := Dispose(v, out).hop;
      OnwardWeighs(frames, out.message, hop, b);
      MulMono(|frames|, b, SlotWeight(hop, b) + 1);
    }
  }

  /** Every packet processed or lost makes the network lighter, and stopping a node does not make it heavier. */
  lemma StepLightens(n: Network, step: Step, n': Network, b: nat)
    requires NetStep(n, step, n') && Quiet(step, b)
    ensures Weight(n', b) + (if step.Halt? then 0 else 1) <= Weight(n, b)
  {
    match step
    case Receive(v, k, victim, frames) => ReceiveLightens(n, v, k, victim, frames, n', b);
    case Lose(k) => AirWithout(n.air, k, b);
    case Halt(v) => SumUpdate(n.nodes, NodeWeight(b), v, n'.nodes[v]);
  }

  function Packets(steps: seq<Step>): nat {
    if steps == [] then 0 else Packets(steps[..|steps| - 1]) + if steps[|steps| - 1].Halt? then 0 else 1
  }

  /**
    Silence: from any state of the network, a run without Sends and without copies made by the medium processes
    and loses at most as many packets as the state weighs.
   */
  lemma {:induction false} QuietRunIsBounded(nets: seq<Network>, steps: seq<Step>, b: nat)
    requires |nets| == |steps| + 1
    requires forall i {:trigger steps[i]} | 0 <= i < |steps| ::
               NetStep(nets[i], steps[i], nets[i + 1]) && Quiet(steps[i], b)
    ensures Packets(steps) + Weight(nets[|steps|], b) <= Weight(nets[0], b)
  {
    if steps != [] {
      var last := |steps| - 1;
      StepLightens(nets[last], steps[last], nets[last + 1], b);
      QuietRunIsBounded(nets[..last + 1], steps[..last], b);
    }
  }
}
