/** How a payload is cut into chunks, and how the receiver's buffer puts the chunks together again. */
module Fragmentation {
  import opened Arithmetic
  import opened RadioTypes

  /** The number of fragments a payload of `n` bytes needs: at least one, all but the last of them full. */
  function FragmentCount(n: nat, chunk: nat): (count: nat)
    requires 0 < chunk
    ensures 0 < count
  {
    if n == 0 then 1 else
    QuotientIs(n + chunk - 1, 0, chunk);
    (n + chunk - 1) / chunk
  }

  lemma FragmentCountBounds(n: nat, chunk: nat)
    requires 0 < chunk
    ensures n <= FragmentCount(n, chunk) * chunk
    ensures n == 0 ==> FragmentCount(n, chunk) == 1
    ensures 0 < n ==> (FragmentCount(n, chunk) - 1) * chunk < n
  {
    var count := (n + chunk - 1) / chunk;
    QuotientIs(n + chunk - 1, count, chunk);
    assert (count + 1) * chunk == count * chunk + chunk == (count - 1) * chunk + chunk + chunk;
  }

  lemma FragmentCountUnique(n: nat, chunk: nat, count: nat)
    requires 0 < chunk && 0 < count && n <= count * chunk
    requires if n == 0 then count == 1 else (count - 1) * chunk < n
    ensures count == FragmentCount(n, chunk)
  {
    var c := FragmentCount(n, chunk);
    FragmentCountBounds(n, chunk);
    MulMono(c, count - 1, chunk);
    MulMono(count, c - 1, chunk);
  }

  /** The bytes that fragment `i` carries. */
  function ChunkAt(p: bytes, chunk: nat, i: nat): bytes {
    var offset := i * chunk;
    if |p| <= offset then [] else p[offset..offset + Min(chunk, |p| - offset)]
  }

  lemma ChunkLength(p: bytes, chunk: nat, i: nat)
    requires 0 < chunk && i < FragmentCount(|p|, chunk)
    ensures |ChunkAt(p, chunk, i)| <= chunk
    ensures i < FragmentCount(|p|, chunk) - 1 ==> |ChunkAt(p, chunk, i)| == chunk
    ensures i == FragmentCount(|p|, chunk) - 1 ==> |ChunkAt(p, chunk, i)| == |p| - i * chunk
  {
    var count := FragmentCount(|p|, chunk);
    FragmentCountBounds(|p|, chunk);
    var offset, end := i * chunk, (count - 1) * chunk;
    assert (i + 1) * chunk == offset + chunk;
    assert count * chunk == end + chunk;
    MulMono(i, count - 1, chunk);
    MulMono(i + 1, count - 1, chunk);
  }

  lemma ChunkExtendsPrefix(p: bytes, chunk: nat, i: nat)
    requires 0 < chunk && i < FragmentCount(|p|, chunk)
    ensures p[..Min(i * chunk, |p|)] + ChunkAt(p, chunk, i) == p[..Min((i + 1) * chunk, |p|)]
  {
    ChunkLength(p, chunk, i);
    assert (i + 1) * chunk == i * chunk + chunk;
  }

  /** One byte of the reassembly buffer: bytes no fragment has supplied are zero. */
  function BufferByte(parts: map<nat, bytes>, chunk: nat, k: nat): u8
    requires 0 < chunk
  {
    var i, r := k / chunk, k % chunk;
    if i in parts && r < |parts[i]| then parts[i][r] else 0
  }

  function Buffer(parts: map<nat, bytes>, count: nat, chunk: nat): (buffer: bytes)
    requires 0 < chunk
    ensures |buffer| == count * chunk
  {
    seq(count * chunk, (k: nat) => BufferByte(parts, chunk, k))
  }

  /** Copying a new part into the buffer at its offset is adding it to the parts. */
  lemma {:induction false} BufferStore(parts: map<nat, bytes>, count: nat, chunk: nat, i: nat, part: bytes)
    requires 0 < chunk && i < count && i !in parts && |part| <= chunk
    ensures i * chunk + |part| <= count * chunk
    ensures var b := Buffer(parts, count, chunk);
            Buffer(parts[i := part], count, chunk) == b[..i * chunk] + part + b[i * chunk + |part|..]
  {
    MulMono(i + 1, count, chunk);
    assert (i + 1) * chunk == i * chunk + chunk;
    var b, b' := Buffer(parts, count, chunk), Buffer(parts[i := part], count, chunk);
    var c := b[..i * chunk] + part + b[i * chunk + |part|..];
    forall k: nat | k < |b'| ensures b'[k] == c[k] {
      BufferByteStore(parts, chunk, i, part, k);
    }
  }

  lemma BufferByteStore(parts: map<nat, bytes>, chunk: nat, i: nat, part: bytes, k: nat)
    requires 0 < chunk && i !in parts && |part| <= chunk
    ensures BufferByte(parts[i := part], chunk, k) ==
            if i * chunk <= k < i * chunk + |part| then part[k - i * chunk] else BufferByte(parts, chunk, k)
  {
    QuotientIs(k, i, chunk);
    assert (i + 1) * chunk == i * chunk + chunk;
  }

  /** The payload completed from `parts`: every chunk full but the last, which holds `last` bytes. */
  function Assembled(parts: map<nat, bytes>, count: nat, chunk: nat, last: nat): bytes
    requires 0 < count && 0 < chunk && last <= chunk
  {
    assert (count - 1) * chunk + chunk == count * chunk;
    Buffer(parts, count, chunk)[..(count - 1) * chunk + last]
  }

  ghost predicate AllChunks(p: bytes, chunk: nat, parts: map<nat, bytes>)
    requires 0 < chunk
  {
    forall i :: i in parts ==> i < FragmentCount(|p|, chunk) && parts[i] == ChunkAt(p, chunk, i)
  }

  /** Joining all the chunks of a payload gives the payload back. */
  lemma {:induction false} AssembledIsPayload(p: bytes, chunk: nat, parts: map<nat, bytes>, last: nat)
    requires 0 < chunk && AllChunks(p, chunk, parts)
    requires forall i: nat :: i < FragmentCount(|p|, chunk) ==> i in parts
    requires last == |ChunkAt(p, chunk, FragmentCount(|p|, chunk) - 1)|
    ensures last <= chunk
    ensures Assembled(parts, FragmentCount(|p|, chunk), chunk, last) == p
  {
    var count := FragmentCount(|p|, chunk);
    ChunkLength(p, chunk, count - 1);
    var q := Assembled(parts, count, chunk, last);
    forall k: nat | k < |p| ensures q[k] == p[k] {
      PayloadByte(p, chunk, parts, k);
    }
  }

  lemma PayloadByte(p: bytes, chunk: nat, parts: map<nat, bytes>, k: nat)
    requires 0 < chunk && AllChunks(p, chunk, parts) && k < |p|
    requires forall i: nat :: i < FragmentCount(|p|, chunk) ==> i in parts
    ensures BufferByte(parts, chunk, k) == p[k]
  {
    var count, i := FragmentCount(|p|, chunk), k / chunk;
    FragmentCountBounds(|p|, chunk);
    QuotientIs(k, i, chunk);
    MulMono(count, i, chunk);
    assert i in parts;
    ChunkLength(p, chunk, i);
  }

  /** A set of indices below `count` that has `count` members has them all. */
  lemma {:induction false} CoversAll(keys: set<nat>, count: nat)
    requires forall i :: i in keys ==> i < count
    ensures |keys| <= count
    ensures |keys| == count <==> forall i: nat :: i < count ==> i in keys
  {
    if count == 0 {
      assert keys == {};
    } else {
      CoversAll(keys - {count - 1}, count - 1);
      if count - 1 in keys {
        assert |keys - {count - 1}| == |keys| - 1;
      } else {
        assert keys - {count - 1} == keys;
      }
    }
  }
}
