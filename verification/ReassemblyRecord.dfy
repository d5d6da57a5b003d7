/** One slot of the transport's reassembly table, updated in place. */
module ReassemblyRecords {
  import opened Arithmetic
  import opened RadioTypes
  import opened Fragmentation
  import opened TransportWire
  import opened Reassembly

  /** What a slot is between calls: some part is missing. */
  ghost predicate InProgress(a: Assembly) {
    a.last <= a.chunk && |a.parts| < a.count && forall i :: i in a.parts ==> i < a.count
  }

  predicate SameCut(a: Assembly, f: Fragment) {
    a.count == f.count && a.chunk == f.chunk
  }

  /** The fragment belongs to a message cut the same way, of which a part is missing. */
  ghost predicate Matches(a: Assembly, f: Fragment) {
    InProgress(a) && SameCut(a, f)
  }

  class ReassemblyRecord {
    var used: bool
    var id: Identity
    var fragmentCount: u8
    var chunkBytes: u8
    var hopLimit: u8
    var lastPayloadBytes: u8
    var receivedCount: u16
    var touch: u32
    var buffer: bytes
    var received: seq<u8>

    ghost var parts: map<nat, bytes>  // the first part received for each index

    /** The message in progress that a used slot stands for. */
    ghost function Model(): Assembly
      reads this
    {
      Assembly(fragmentCount, chunkBytes, hopLimit, lastPayloadBytes, touch, parts)
    }

    ghost predicate Valid()
      reads this
    {
      if used then Filled() else Cleared()
    }

    /** The slot holds message `id`, as far as `a` says. */
    ghost predicate StandsFor(id: Identity, a: Assembly)
      reads this
    {
      Filled() && this.id == id && Model() == a
    }

    /** The buffer is what the parts fill of it, and the flags and their count say which are there. */
    ghost predicate Filled()
      reads this
    {
      && 0 < chunkBytes
      && buffer == Buffer(parts, fragmentCount, chunkBytes)
      && receivedCount == |parts|
      && |received| == fragmentCount && forall i: nat | i < fragmentCount :: received[i] == if i in parts then 1 else 0
    }

    /** A free slot holds nothing: opening it relies on that. */
    predicate Cleared()
      reads this
    {
      && (used, id) == (false, Identity(0, 0, 0, 0))
      && (fragmentCount, chunkBytes, hopLimit, lastPayloadBytes, receivedCount, touch) == (0, 0, 0, 0, 0, 0)
      && (buffer, received) == ([], [])
    }

    constructor ()
      ensures Cleared()
    {
      used, id := false, Identity(0, 0, 0, 0);
      fragmentCount, chunkBytes, hopLimit, lastPayloadBytes := 0, 0, 0, 0;
      receivedCount, touch, buffer, received := 0, 0, [], [];
    }

    method Reset()
      modifies this
      ensures Cleared()
    {
      used, id := false, Identity(0, 0, 0, 0);
      fragmentCount, chunkBytes, hopLimit, lastPayloadBytes := 0, 0, 0, 0;
      receivedCount, touch, buffer, received := 0, 0, [], [];
    }

    /** Takes a cleared slot for the message of `f`, with an all-zero buffer. */
    method Open(f: Fragment, touch: u32)
      requires Cleared() && WellFormed(f)
      modifies this
      ensures used && Filled() && id == f.id && Model() == Fresh(f, touch)
    {
      used, id, parts := true, f.id, map[];
      fragmentCount, chunkBytes, hopLimit, this.touch := f.count, f.chunk, f.hop, touch;
      EmptyBuffer(f.count, f.chunk);
      buffer := seq(f.count * f.chunk, _ => 0);
      received := seq(f.count, _ => 0);
    }

    /** Copies a new part into the buffer. */
    method Insert(f: Fragment)
      requires Filled() && WellFormed(f) && Matches(Model(), f) && f.index !in parts
      requires f.index * f.chunk + |f.payload| <= |buffer|
      modifies this`buffer, this`received, this`receivedCount, this`parts
      ensures Filled() && parts == old(parts)[f.index := f.payload]
    {
      MulMono(0, f.index, f.chunk);
      PartFits(Model(), f);
      var offset: nat := f.index * f.chunk;
      ghost var filled := Buffer(parts[f.index := f.payload], fragmentCount, chunkBytes);
      assert filled == buffer[..offset] + f.payload + buffer[offset + |f.payload|..];
      buffer := buffer[..offset] + f.payload + buffer[offset + |f.payload|..];
      received := received[f.index := 1];
      receivedCount := receivedCount + 1;
      parts := parts[f.index := f.payload];
    }

    /** Takes in a fragment: its bytes if the index is new, and its length if it is the last one. */
    method Store(f: Fragment, touch: u32)
      requires used && Filled() && WellFormed(f) && Matches(Model(), f)
      modifies this`touch, this`buffer, this`received, this`receivedCount, this`lastPayloadBytes, this`parts
      ensures used && Filled() && Model() == Stored(old(Model()), f, touch)
    {
      this.touch := touch;
      PartFits(Model(), f);
      if |buffer| < f.index * f.chunk + |f.payload| {
        assert false;  // the source resets the slot here; a fragment that got this far fits its buffer
      }
      if received[f.index] == 0 {
        Insert(f);
      }
      if f.index == f.count - 1 {
        lastPayloadBytes := |f.payload|;
      }
    }

    /** The bytes handed on when every fragment is in. */
    function MessageBytes(): bytes
      requires 0 < fragmentCount && 0 <= (fragmentCount - 1) * chunkBytes + lastPayloadBytes <= |buffer|
      reads this
    {
      buffer[..(fragmentCount - 1) * chunkBytes + lastPayloadBytes]
    }

    lemma MessageBytesAre()
      requires Filled() && 0 < fragmentCount && lastPayloadBytes <= chunkBytes
      ensures 0 <= (fragmentCount - 1) * chunkBytes + lastPayloadBytes <= |buffer|
      ensures Message(id, MessageBytes()) == MessageOf(id, Model())
    {
      assert (fragmentCount - 1) * chunkBytes + chunkBytes == fragmentCount * chunkBytes;
      MulMono(0, fragmentCount - 1, chunkBytes);
    }
  }

  lemma EmptyBuffer(count: nat, chunk: Positive)
    ensures 0 <= count * chunk && Buffer(map[], count, chunk) == seq(count * chunk, _ => 0)
  {
  }

  lemma PartFits(a: Assembly, f: Fragment)
    requires WellFormed(f) && SameCut(a, f)
    requires forall i :: i in a.parts ==> i < a.count
    ensures f.index * f.chunk + |f.payload| <= a.count * a.chunk
    ensures f.index !in a.parts ==> |a.parts| < a.count
    ensures f.index !in a.parts ==>
              var b, offset := Buffer(a.parts, a.count, a.chunk), f.index * f.chunk;
              Buffer(a.parts[f.index := f.payload], a.count, a.chunk) ==
                b[..offset] + f.payload + b[offset + |f.payload|..]
  {
    MulMono(f.index + 1, f.count, f.chunk);
    assert (f.index + 1) * f.chunk == f.index * f.chunk + f.chunk;
    if f.index !in a.parts {
      BufferStore(a.parts, a.count, a.chunk, f.index, f.payload);
      CoversAll(a.parts.Keys, a.count);
      assert |a.parts.Keys| == |a.parts|;
    }
  }
}
