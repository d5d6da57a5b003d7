/** Where the fields of the three messages lie on the wire, byte by byte, and which byte strings are messages at all. */
module WireLayout {
  import opened RadioTypes
  import opened ByteCodec
  import opened TransportWire
  import opened ClockWire

  // ----- the transport's frame -----

  lemma FrameLayout(f: Fragment)
    requires |f.payload| < 0x100
    ensures var b := Frame(f);
            && |b| == 15 + |f.payload|
            && b[0] == 0xE5 && b[1] == 0x52 && b[2] == 1 && b[3] == f.id.channel
            && Value(b[4..6]) == f.id.source && Value(b[6..8]) == f.id.destination && Value(b[8..10]) == f.id.messageId
            && b[10] == f.index && b[11] == f.count && b[12] == f.chunk && b[13] == |f.payload| && b[14] == f.hop
            && b[15..] == f.payload
  {
    var b, h := Frame(f), HeaderBytes(f);
    assert forall k | 0 <= k < 15 :: b[k] == h[k];
    WordAt(b, 4, f.id.source);
    WordAt(b, 6, f.id.destination);
    WordAt(b, 8, f.id.messageId);
  }

  lemma WordAt(b: bytes, at: nat, w: u16)
    requires at + 2 <= |b| && b[at] == w % 256 && b[at + 1] == w / 256
    ensures Value(b[at..at + 2]) == w
  {
    assert b[at..at + 2] == [b[at], b[at + 1]];
    assert Value(b[at..at + 2]) == Word(b[at], b[at + 1]);
  }

  /** A byte string is a frame exactly if its header is in order and its length is what the header says. */
  lemma FramesAre(data: bytes)
    ensures Parse(data).Some? <==>
              && 15 <= |data| && data[0] == 0xE5 && data[1] == 0x52 && data[2] == 1
              && data[10] < data[11] && 0 < data[12] && data[13] <= data[12] && |data| - 15 == data[13]
  {
  }

  // ----- the synchronizer's messages -----

  lemma HeaderLayout(kind: MessageType, sequence: u32)
    ensures var b := Header(kind, sequence);
            && b[..4] == [0x53, 0x59, 1, if kind == RequestType then 1 else 2]
            && Value(b[4..8]) == sequence
  {
    PowerValues();
    ValueOfLittleEndian(sequence, 4);
    assert Header(kind, sequence)[4..8] == LittleEndian(sequence, 4);
  }

  lemma RequestLayout(sequence: u32, t1: u64, address: RadioAddress)
    requires |address| <= 8
    ensures var b, used := Written(Request(sequence, t1, address)), 17 + |address|;
            && |b| == 25 && b[..4] == [0x53, 0x59, 1, 1] && Value(b[4..8]) == sequence && Value(b[8..16]) == t1
            && b[16] == |address| && b[17..used] == address && forall k | used <= k < 25 :: b[k] == 0
  {
    var head, tail := Header(RequestType, sequence), [|address|] + address + Zeros(8 - |address|);
    var b := Written(Request(sequence, t1, address));
    assert b == head + LittleEndian(t1, 8) + tail;
    HeaderLayout(RequestType, sequence);
    FieldAt(head, t1, tail);
    assert b[4..8] == head[4..8];
  }

  lemma ResponseLayout(sequence: u32, t1: u64, t2: u64, t3: u64)
    ensures var b := Written(Response(sequence, t1, t2, t3));
            && |b| == 32 && b[..4] == [0x53, 0x59, 1, 2] && Value(b[4..8]) == sequence
            && Value(b[8..16]) == t1 && Value(b[16..24]) == t2 && Value(b[24..32]) == t3
  {
    var head := Header(ResponseType, sequence);
    var b := Written(Response(sequence, t1, t2, t3));
    HeaderLayout(ResponseType, sequence);
    ThreeFields(head, t1, t2, t3);
    assert b[4..8] == head[4..8];
  }

  /** A packet is the synchronizer's exactly if it begins with magic, version, a known type and a nonzero number. */
  lemma HeadersAre(data: bytes)
    ensures DecodeHeader(data).Some? <==>
              && 8 <= |data| && data[0] == 0x53 && data[1] == 0x59 && data[2] == 1 && (data[3] == 1 || data[3] == 2)
              && Value(data[4..8]) != 0
    ensures DecodeHeader(data).Some? ==>
              DecodeHeader(data).value == (if data[3] == 1 then RequestType else ResponseType, Value(data[4..8]))
  {
  }

  /** Such a packet is a request exactly if it has 25 bytes and an address of 1 to 8, and a response if it has 32. */
  lemma MessagesAre(data: bytes)
    requires DecodeHeader(data).Some?
    ensures Read(data).Some? <==> if data[3] == 1 then |data| == 25 && 1 <= data[16] <= 8 else |data| == 32
  {
  }
}
