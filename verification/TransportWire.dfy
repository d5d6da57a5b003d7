/** The transport's frame: a 15-byte header followed by one chunk of the message. */
module TransportWire {
  import opened Arithmetic
  import opened RadioTypes
  import opened ByteCodec
  import opened Fragmentation

  const WIRE_MAGIC_0: u8 := 0xE5
  const WIRE_MAGIC_1: u8 := 0x52
  const WIRE_VERSION: u8 := 1
  const WIRE_HEADER_BYTES := 15

  /** What tells one message from another everywhere in the transport. */
  datatype Identity = Identity(source: u16, destination: u16, channel: u8, messageId: u16)

  /** A decoded frame; the header's PayloadBytes is the length of the payload. */
  datatype Fragment = Fragment(id: Identity, index: u8, count: u8, chunk: u8, hop: u8, payload: bytes)

  /** What a frame must satisfy to be let in. */
  predicate WellFormed(f: Fragment) {
    f.index < f.count && 0 < f.chunk && |f.payload| <= f.chunk
  }

  function HeaderBytes(f: Fragment): (b: bytes)
    requires |f.payload| < 0x100
    ensures |b| == WIRE_HEADER_BYTES
  {
    [WIRE_MAGIC_0, WIRE_MAGIC_1, WIRE_VERSION, f.id.channel,
     f.id.source % 256, f.id.source / 256, f.id.destination % 256, f.id.destination / 256,
     f.id.messageId % 256, f.id.messageId / 256,
     f.index, f.count, f.chunk, |f.payload|, f.hop]
  }

  /** The frame that carries a fragment. */
  function Frame(f: Fragment): bytes
    requires |f.payload| < 0x100
  {
    HeaderBytes(f) + f.payload
  }

  /** Reads a frame, or refuses it. */
  function Parse(data: bytes): (r: Option<Fragment>)
    ensures r.Some? ==> WellFormed(r.value)
  {
    if |data| < WIRE_HEADER_BYTES then None
    else if data[0] != WIRE_MAGIC_0 || data[1] != WIRE_MAGIC_1 || data[2] != WIRE_VERSION then None
    else
      var id := Identity(Word(data[4], data[5]), Word(data[6], data[7]), data[3], Word(data[8], data[9]));
      var index, count, chunk, payloadBytes := data[10], data[11], data[12], data[13];
      if count == 0 || index >= count || chunk == 0 then None
      else if payloadBytes <= chunk && WIRE_HEADER_BYTES + payloadBytes == |data| then
        Some(Fragment(id, index, count, chunk, data[14], data[WIRE_HEADER_BYTES..]))
      else None
  }

  /** Reading a written frame gives the fragment back. */
  lemma ParseFrame(f: Fragment)
    requires WellFormed(f)
    ensures Parse(Frame(f)) == Some(f)
  {
    var data := Frame(f);
    assert forall k | 0 <= k < WIRE_HEADER_BYTES :: data[k] == HeaderBytes(f)[k];
    assert data[WIRE_HEADER_BYTES..] == f.payload;
  }

  /** Writing an accepted frame again reproduces it, so two frames are read alike only if they are equal. */
  lemma FrameParse(data: bytes)
    requires Parse(data).Some?
    ensures Frame(Parse(data).value) == data
  {
    HeaderParse(data);
    assert data == data[..WIRE_HEADER_BYTES] + data[WIRE_HEADER_BYTES..];
  }

  lemma HeaderParse(data: bytes)
    requires Parse(data).Some?
    ensures HeaderBytes(Parse(data).value) == data[..WIRE_HEADER_BYTES]
    ensures Parse(data).value.payload == data[WIRE_HEADER_BYTES..]
  {
    var h := HeaderBytes(Parse(data).value);
    assert h[0] == data[0] && h[1] == data[1] && h[2] == data[2] && h[3] == data[3];
    WordBytes(data[4], data[5]);
    WordBytes(data[6], data[7]);
    WordBytes(data[8], data[9]);
    assert h[4] == data[4] && h[5] == data[5] && h[6] == data[6] && h[7] == data[7];
    assert h[8] == data[8] && h[9] == data[9] && h[10] == data[10] && h[11] == data[11];
    assert h[12] == data[12] && h[13] == data[13] && h[14] == data[14];
  }

  lemma WordBytes(low: u8, high: u8)
    ensures Word(low, high) % 256 == low && Word(low, high) / 256 == high
  {
  }

  /** Parse succeeds exactly on the frames of well-formed fragments. */
  lemma ParseAcceptsExactlyFrames(data: bytes)
    ensures Parse(data).Some? <==> exists f: Fragment :: WellFormed(f) && Frame(f) == data
  {
    if Parse(data).Some? {
      FrameParse(data);
      assert WellFormed(Parse(data).value);
    }
    forall f: Fragment | WellFormed(f) && Frame(f) == data ensures Parse(data).Some? {
      ParseFrame(f);
    }
  }

  /** Writes the header into the front of a frame buffer. */
  method EncodeHeader(data: array<u8>, f: Fragment)
    requires WIRE_HEADER_BYTES <= data.Length && |f.payload| < 0x100
    modifies data
    ensures data[..] == HeaderBytes(f) + old(data[WIRE_HEADER_BYTES..])
  {
    data[0], data[1], data[2], data[3] := WIRE_MAGIC_0, WIRE_MAGIC_1, WIRE_VERSION, f.id.channel;
    WriteU16(data, 4, f.id.source);
    WriteU16(data, 6, f.id.destination);
    WriteU16(data, 8, f.id.messageId);
    data[10], data[11], data[12], data[13], data[14] := f.index, f.count, f.chunk, |f.payload|, f.hop;
    assert data[..] == data[..WIRE_HEADER_BYTES] + data[WIRE_HEADER_BYTES..];
    assert data[..WIRE_HEADER_BYTES] == HeaderBytes(f);
  }

  // ----- the fragments of a message -----

  /** A size the sender lets through with chunks of this size. */
  predicate Sendable(n: nat, chunk: nat) {
    0 < chunk <= 255 && n <= MAX_MESSAGE_BYTES && FragmentCount(n, chunk) <= 255
  }

  lemma SendableBound(n: nat, chunk: nat)
    ensures Sendable(n, chunk) <==> 0 < chunk <= 255 && n <= MAX_MESSAGE_BYTES && n <= 255 * chunk
  {
    if 0 < chunk <= 255 {
      FragmentCountBounds(n, chunk);
      MulMono(FragmentCount(n, chunk), 255, chunk);
      MulMono(255, FragmentCount(n, chunk) - 1, chunk);
    }
  }

  /** The reassembly buffer for so many fragments is within the receiver's bound. */
  predicate Fits(count: nat, chunk: nat) {
    count * chunk <= MAX_MESSAGE_BYTES
  }

  /** A size whose reassembly buffer is. */
  predicate Storable(n: nat, chunk: nat)
    requires 0 < chunk
  {
    Fits(FragmentCount(n, chunk), chunk)
  }

  /** `f` is a fragment of payload `p` of message `id`, whatever its hop limit. */
  ghost predicate FragmentOf(f: Fragment, id: Identity, p: bytes) {
    && f.id == id && 0 < f.chunk
    && f.count == FragmentCount(|p|, f.chunk) && f.index < f.count
    && f.payload == ChunkAt(p, f.chunk, f.index)
  }

  function FragmentAt(id: Identity, p: bytes, chunk: nat, hop: u8, index: nat): (f: Fragment)
    requires 0 < chunk <= 255 && FragmentCount(|p|, chunk) <= 255 && index < FragmentCount(|p|, chunk)
    ensures WellFormed(f) && FragmentOf(f, id, p) && f.index == index && f.chunk == chunk && f.hop == hop
  {
    ChunkLength(p, chunk, index);
    Fragment(id, index, FragmentCount(|p|, chunk), chunk, hop, ChunkAt(p, chunk, index))
  }

  /** The frames one message is sent as, in order. */
  function Frames(id: Identity, p: bytes, chunk: nat, hop: u8): (frames: seq<bytes>)
    requires 0 < chunk <= 255 && FragmentCount(|p|, chunk) <= 255
    ensures |frames| == FragmentCount(|p|, chunk)
  {
    seq(FragmentCount(|p|, chunk),
        (i: nat) requires i < FragmentCount(|p|, chunk) => Frame(FragmentAt(id, p, chunk, hop, i)))
  }

  function Payloads(frames: seq<bytes>): bytes {
    if frames == [] then []
    else Payloads(frames[..|frames| - 1]) +
         if |frames[|frames| - 1]| < WIRE_HEADER_BYTES then [] else frames[|frames| - 1][WIRE_HEADER_BYTES..]
  }

  /**
    Every frame of a message is read back, fits the link, is full unless it is the last, and they join to the payload.
   */
  lemma {:induction false} FramesCarryPayload(id: Identity, p: bytes, chunk: nat, hop: u8)
    requires 0 < chunk <= 255 && FragmentCount(|p|, chunk) <= 255
    ensures var frames := Frames(id, p, chunk, hop);
            && Payloads(frames) == p
            && forall i | 0 <= i < |frames| ::
                 && Parse(frames[i]) == Some(FragmentAt(id, p, chunk, hop, i))
                 && |frames[i]| <= WIRE_HEADER_BYTES + chunk
                 && (i < |frames| - 1 ==> |frames[i]| == WIRE_HEADER_BYTES + chunk)
  {
    var frames := Frames(id, p, chunk, hop);
    forall i | 0 <= i < |frames|
      ensures Parse(frames[i]) == Some(FragmentAt(id, p, chunk, hop, i))
      ensures |frames[i]| <= WIRE_HEADER_BYTES + chunk
      ensures i < |frames| - 1 ==> |frames[i]| == WIRE_HEADER_BYTES + chunk
    {
      ParseFrame(FragmentAt(id, p, chunk, hop, i));
      ChunkLength(p, chunk, i);
    }
    PayloadsPrefix(id, p, chunk, hop, |frames|);
    FragmentCountBounds(|p|, chunk);
    assert frames[..|frames|] == frames;
  }

  lemma {:induction false} PayloadsPrefix(id: Identity, p: bytes, chunk: nat, hop: u8, k: nat)
    requires 0 < chunk <= 255 && FragmentCount(|p|, chunk) <= 255 && k <= FragmentCount(|p|, chunk)
    ensures Payloads(Frames(id, p, chunk, hop)[..k]) == p[..Min(k * chunk, |p|)]
  {
    var frames := Frames(id, p, chunk, hop);
    if k != 0 {
      PayloadsPrefix(id, p, chunk, hop, k - 1);
      ChunkLength(p, chunk, k - 1);
      assert frames[..k][..k - 1] == frames[..k - 1];
      var f := FragmentAt(id, p, chunk, hop, k - 1);
      assert Frame(f)[WIRE_HEADER_BYTES..] == f.payload;
      ChunkExtendsPrefix(p, chunk, k - 1);
    }
  }

  /** The receiver can hold a message exactly if a chunk fits, and the payload fits the whole chunks that do. */
  lemma StorableBound(n: nat, chunk: nat)
    requires 0 < chunk
    ensures Storable(n, chunk) <==> chunk <= MAX_MESSAGE_BYTES && n <= MAX_MESSAGE_BYTES / chunk * chunk
  {
    var count, whole := FragmentCount(n, chunk), MAX_MESSAGE_BYTES / chunk;
    FragmentCountBounds(n, chunk);
    QuotientIs(MAX_MESSAGE_BYTES, 0, chunk);
    MulMono(count, whole, chunk);
    MulMono(whole + 1, count, chunk);
    MulMono(whole, count - 1, chunk);
    MulMono(1, whole, chunk);
    MulMono(1, count, chunk);
  }
}
