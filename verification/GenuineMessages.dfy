/** Assemblies and frames that stem from one payload, and what a table does with them. */
module GenuineMessages {
  import opened RadioTypes
  import opened Fragmentation
  import opened TransportWire
  import opened Reassembly

  /** Everything in the assembly is a chunk of `p`, at its index. */
  ghost predicate GenuineAssembly(a: Assembly, p: bytes) {
    && 0 < a.chunk && a.count == FragmentCount(|p|, a.chunk)
    && AllChunks(p, a.chunk, a.parts)
    && a.last == if a.count - 1 in a.parts then |a.parts[a.count - 1]| else 0
  }

  lemma GenuineStored(a: Assembly, f: Fragment, touch: u32, p: bytes)
    requires WellFormed(f) && FragmentOf(f, f.id, p) && GenuineAssembly(a, p) && a.chunk == f.chunk
    ensures var a' := Stored(a, f, touch);
            GenuineAssembly(a', p) && a'.parts.Keys == a.parts.Keys + {f.index}
  {
  }

  lemma GenuineComplete(id: Identity, a: Assembly, p: bytes)
    requires GenuineAssembly(a, p) && |a.parts| == a.count
    ensures a.last <= a.chunk && MessageOf(id, a) == Message(id, p)
  {
    CoversAll(a.parts.Keys, a.count);
    assert |a.parts.Keys| == |a.parts|;
    assert a.count - 1 in a.parts.Keys;
    AssembledIsPayload(p, a.chunk, a.parts, a.last);
  }

  /** A genuine fragment keeps its assembly genuine, and what it completes is the original payload. */
  lemma GenuineAccept(t: Table, f: Fragment, victim: Identity, p: bytes)
    requires WellFormed(f) && FragmentOf(f, f.id, p)
    requires f.id in t.assemblies ==>
               GenuineAssembly(t.assemblies[f.id], p) && t.assemblies[f.id].last <= t.assemblies[f.id].chunk
    ensures var (t', out) := Accept(t, f, victim);
            && (f.id in t'.assemblies ==> GenuineAssembly(t'.assemblies[f.id], p))
            && (out.Completed? ==> out.message == Message(f.id, p))
  {
    if SlotFor(t, f).Some? {
      var (a, found) := SlotFor(t, f).value;
      if a.count == f.count && a.chunk == f.chunk {
        var a' := Stored(a, f, NextTouch(found));
        GenuineStored(a, f, NextTouch(found), p);
        if |a'.parts| == a'.count {
          GenuineComplete(f.id, a', p);
        }
      }
    }
  }

  /** The parts of `id` that are in: none if it is not in progress. */
  function PartsHeld(t: Table, id: Identity): set<nat> {
    if id in t.assemblies then t.assemblies[id].parts.Keys else {}
  }

  /** A storable genuine fragment is taken in; it completes the message exactly if it was the last one missing. */
  lemma GenuineProgress(t: Table, f: Fragment, victim: Identity, p: bytes)
    requires WellFormed(f) && FragmentOf(f, f.id, p) && Fits(f.count, f.chunk)
    requires f.id in t.assemblies ==>
               && GenuineAssembly(t.assemblies[f.id], p)
               && t.assemblies[f.id].chunk == f.chunk && t.assemblies[f.id].last <= f.chunk
    ensures var (t', out) := Accept(t, f, victim);
            var held := PartsHeld(t, f.id) + {f.index};
            var hop := if f.id in t.assemblies then t.assemblies[f.id].hop else f.hop;
            if |held| == f.count then
              out.Completed? && out.message.id == f.id && out.hop == hop && f.id !in t'.assemblies
            else
              && out == Nothing && f.id in t'.assemblies
              && PartsHeld(t', f.id) == held && t'.assemblies[f.id].hop == hop
              && t'.assemblies[f.id].chunk == f.chunk && t'.assemblies[f.id].touch == t'.touch
  {
    var (a, found) := SlotFor(t, f).value;
    GenuineStored(a, f, NextTouch(found), p);
    var a' := Stored(a, f, NextTouch(found));
    assert a'.parts.Keys == PartsHeld(t, f.id) + {f.index};
    assert |a'.parts.Keys| == |a'.parts|;
  }
}
