/** The clock synchronizer's two messages: a request of 25 bytes and a response of 32. */
module ClockWire {
  import opened RadioTypes
  import opened ByteCodec
  import TransportWire

  const CLOCK_MAGIC_LOW: u8 := 0x53
  const CLOCK_MAGIC_HIGH: u8 := 0x59
  const CLOCK_VERSION: u8 := 1
  const CLOCK_HEADER_BYTES := 8
  const ADDRESS_LENGTH_OFFSET := 16
  const ADDRESS_OFFSET := 17
  const REQUEST_BYTES := 25
  const RESPONSE_BYTES := 32

  datatype MessageType = RequestType | ResponseType

  datatype ClockMessage =
    | Request(sequence: u32, t1: u64, address: RadioAddress)
    | Response(sequence: u32, t1: u64, t2: u64, t3: u64)

  /** The messages the synchronizer sends: numbered, and a request tells where to answer. */
  predicate Legal(m: ClockMessage) {
    m.sequence != 0 && (m.Request? ==> IsValidAddress(m.address))
  }

  function TypeByte(kind: MessageType): u8 {
    if kind == RequestType then 1 else 2
  }

  function Header(kind: MessageType, sequence: u32): (b: bytes)
    ensures |b| == CLOCK_HEADER_BYTES
  {
    [CLOCK_MAGIC_LOW, CLOCK_MAGIC_HIGH, CLOCK_VERSION, TypeByte(kind)] + LittleEndian(sequence, 4)
  }

  function Zeros(n: nat): (b: bytes)
    ensures |b| == n
  {
    seq(n, _ => 0)
  }

  /** A message as bytes. */
  function Written(m: ClockMessage): (b: bytes)
    requires m.Request? ==> |m.address| <= MAX_ADDRESS_BYTES
    ensures |b| == if m.Request? then REQUEST_BYTES else RESPONSE_BYTES
  {
    match m
    case Request(sequence, t1, address) =>
      Header(RequestType, sequence) + LittleEndian(t1, 8) + [|address|] + address + Zeros(MAX_ADDRESS_BYTES - |address|)
    case Response(sequence, t1, t2, t3) =>
      Header(ResponseType, sequence) + LittleEndian(t1, 8) + LittleEndian(t2, 8) + LittleEndian(t3, 8)
  }

  /** The type and sequence number of a packet that belongs to the synchronizer. */
  function DecodeHeader(data: bytes): (r: Option<(MessageType, u32)>)
    ensures r.Some? ==> r.value.1 != 0 && CLOCK_HEADER_BYTES <= |data|
  {
    if |data| < CLOCK_HEADER_BYTES then None
    else if data[0] != CLOCK_MAGIC_LOW || data[1] != CLOCK_MAGIC_HIGH || data[2] != CLOCK_VERSION then None
    else if data[3] != 1 && data[3] != 2 then None
    else
      PowerValues();
      var sequence := Value(data[4..8]);
      if sequence == 0 then None else Some((if data[3] == 1 then RequestType else ResponseType, sequence))
  }

  function U64At(data: bytes, at: nat): u64
    requires at + 8 <= |data|
  {
    PowerValues();
    Value(data[at..at + 8])
  }

  /** The address embedded in a request; empty if its length byte is out of range. */
  function DecodeRequestAddress(data: bytes): RadioAddress
    requires |data| == REQUEST_BYTES
  {
    var length := data[ADDRESS_LENGTH_OFFSET];
    if length == 0 || length > MAX_ADDRESS_BYTES then [] else data[ADDRESS_OFFSET..ADDRESS_OFFSET + length]
  }

  /** Reads a message, or refuses it. */
  function Read(data: bytes): (r: Option<ClockMessage>)
    ensures r.Some? ==> Legal(r.value) && |data| == if r.value.Request? then REQUEST_BYTES else RESPONSE_BYTES
  {
    match DecodeHeader(data)
    case None => None
    case Some((RequestType, sequence)) =>
      if |data| != REQUEST_BYTES || !IsValidAddress(DecodeRequestAddress(data)) then None
      else Some(Request(sequence, U64At(data, 8), DecodeRequestAddress(data)))
    case Some((ResponseType, sequence)) =>
      if |data| != RESPONSE_BYTES then None
      else Some(Response(sequence, U64At(data, 8), U64At(data, 16), U64At(data, 24)))
  }

  // ----- the codec inverts both ways -----

  lemma FieldAt(prefix: bytes, v: u64, suffix: bytes)
    ensures U64At(prefix + LittleEndian(v, 8) + suffix, |prefix|) == v
  {
    PowerValues();
    ValueOfLittleEndian(v, 8);
    assert (prefix + LittleEndian(v, 8) + suffix)[|prefix|..|prefix| + 8] == LittleEndian(v, 8);
  }

  lemma HeaderIs(kind: MessageType, sequence: u32, rest: bytes)
    requires sequence != 0
    ensures DecodeHeader(Header(kind, sequence) + rest) == Some((kind, sequence))
  {
    PowerValues();
    ValueOfLittleEndian(sequence, 4);
    assert (Header(kind, sequence) + rest)[4..8] == LittleEndian(sequence, 4);
  }

  /** Reading a written message gives the message back. */
  lemma ReadWritten(m: ClockMessage)
    requires Legal(m)
    ensures Read(Written(m)) == Some(m)
  {
    match m
    case Request(sequence, t1, address) => ReadRequest(sequence, t1, address);
    case Response(sequence, t1, t2, t3) => ReadResponse(sequence, t1, t2, t3);
  }

  lemma ReadRequest(sequence: u32, t1: u64, address: RadioAddress)
    requires Legal(Request(sequence, t1, address))
    ensures Read(Written(Request(sequence, t1, address))) == Some(Request(sequence, t1, address))
  {
    var data, head := Written(Request(sequence, t1, address)), Header(RequestType, sequence);
    var tail := [|address|] + address + Zeros(MAX_ADDRESS_BYTES - |address|);
    assert data == head + (LittleEndian(t1, 8) + tail) == head + LittleEndian(t1, 8) + tail;
    HeaderIs(RequestType, sequence, LittleEndian(t1, 8) + tail);
    FieldAt(head, t1, tail);
    assert DecodeRequestAddress(data) == address;
  }

  lemma ReadResponse(sequence: u32, t1: u64, t2: u64, t3: u64)
    requires sequence != 0
    ensures Read(Written(Response(sequence, t1, t2, t3))) == Some(Response(sequence, t1, t2, t3))
  {
    var head := Header(ResponseType, sequence);
    var b1, b2, b3 := LittleEndian(t1, 8), LittleEndian(t2, 8), LittleEndian(t3, 8);
    assert Written(Response(sequence, t1, t2, t3)) == head + (b1 + b2 + b3);
    HeaderIs(ResponseType, sequence, b1 + b2 + b3);
    ThreeFields(head, t1, t2, t3);
  }

  lemma ThreeFields(head: bytes, t1: u64, t2: u64, t3: u64)
    requires |head| == CLOCK_HEADER_BYTES
    ensures var data := head + LittleEndian(t1, 8) + LittleEndian(t2, 8) + LittleEndian(t3, 8);
            U64At(data, 8) == t1 && U64At(data, 16) == t2 && U64At(data, 24) == t3
  {
    var b1, b2, b3 := LittleEndian(t1, 8), LittleEndian(t2, 8), LittleEndian(t3, 8);
    var data := head + b1 + b2 + b3;
    assert data == head + b1 + (b2 + b3) == head + b1 + b2 + b3 + [];
    FieldAt(head, t1, b2 + b3);
    FieldAt(head + b1, t2, b3);
    FieldAt(head + b1 + b2, t3, []);
  }

  lemma FieldOf(data: bytes, at: nat)
    requires at + 8 <= |data|
    ensures LittleEndian(U64At(data, at), 8) == data[at..at + 8]
  {
    PowerValues();
    LittleEndianOfValue(data[at..at + 8]);
  }

  lemma HeaderOf(data: bytes)
    requires DecodeHeader(data).Some?
    ensures Header(DecodeHeader(data).value.0, DecodeHeader(data).value.1) == data[..CLOCK_HEADER_BYTES]
  {
    LittleEndianOfValue(data[4..8]);
    assert data[..8] == data[..4] + data[4..8];
  }

  /**
    Writing what was read reproduces the bytes: all 32 of a response, and of a request all but the bytes behind the
    address, which are ignored. So a request is reproduced exactly if those are zero.
   */
  lemma WrittenRead(data: bytes)
    requires Read(data).Some?
    ensures var m := Read(data).value;
            match m
            case Response(_, _, _, _) => Written(m) == data
            case Request(_, _, address) =>
              var used := ADDRESS_OFFSET + |address|;
              && Written(m)[..used] == data[..used]
              && (Written(m) == data <==> forall k | used <= k < REQUEST_BYTES :: data[k] == 0)
  {
    if Read(data).value.Response? {
      ResponseAgain(data);
    } else {
      RequestAgain(data);
    }
  }

  lemma ResponseAgain(data: bytes)
    requires Read(data).Some? && Read(data).value.Response?
    ensures Written(Read(data).value) == data
  {
    var m := Read(data).value;
    FrontOf(data);
    FieldOf(data, 16);
    FieldOf(data, 24);
    ResponseFrom(m, data);
  }

  lemma ResponseFrom(m: ClockMessage, data: bytes)
    requires m.Response? && |data| == RESPONSE_BYTES
    requires Header(ResponseType, m.sequence) + LittleEndian(m.t1, 8) == data[..16]
    requires LittleEndian(m.t2, 8) == data[16..24] && LittleEndian(m.t3, 8) == data[24..32]
    ensures Written(m) == data
  {
    assert data == data[..16] + data[16..24] + data[24..32];
  }

  lemma RequestAgain(data: bytes)
    requires Read(data).Some? && Read(data).value.Request?
    ensures var m := Read(data).value;
            var used := ADDRESS_OFFSET + |m.address|;
            && Written(m)[..used] == data[..used]
            && (Written(m) == data <==> forall k | used <= k < REQUEST_BYTES :: data[k] == 0)
  {
    var m := Read(data).value;
    FrontOf(data);
    RequestFrom(m, data);
  }

  lemma RequestFrom(m: ClockMessage, data: bytes)
    requires m.Request? && |data| == REQUEST_BYTES && |m.address| <= MAX_ADDRESS_BYTES
    requires Header(RequestType, m.sequence) + LittleEndian(m.t1, 8) == data[..16]
    requires data[16] == |m.address| && data[17..17 + |m.address|] == m.address
    ensures var used := ADDRESS_OFFSET + |m.address|;
            && Written(m)[..used] == data[..used]
            && (Written(m) == data <==> forall k | used <= k < REQUEST_BYTES :: data[k] == 0)
  {
    var used := ADDRESS_OFFSET + |m.address|;
    var front, padding := data[..16] + [|m.address|] + m.address, Zeros(REQUEST_BYTES - used);
    assert Written(m) == front + padding;
    assert data[..used] == front;
    SamePrefix(Written(m), data, front, padding);
  }

  lemma FrontOf(data: bytes)
    requires DecodeHeader(data).Some? && 16 <= |data|
    ensures var (kind, sequence) := DecodeHeader(data).value;
            Header(kind, sequence) + LittleEndian(U64At(data, 8), 8) == data[..16]
  {
    HeaderOf(data);
    FieldOf(data, 8);
    assert data[..16] == data[..8] + data[8..16];
  }

  lemma SamePrefix(written: bytes, data: bytes, front: bytes, padding: bytes)
    requires written == front + padding && padding == Zeros(|padding|)
    requires |data| == |written| && data[..|front|] == front
    ensures written[..|front|] == data[..|front|]
    ensures written == data <==> forall k | |front| <= k < |data| :: data[k] == 0
  {
    assert data == front + data[|front|..];
    if forall k | |front| <= k < |data| :: data[k] == 0 {
      assert data[|front|..] == padding;
    }
    assert forall k | |front| <= k < |written| :: written[k] == 0;
  }

  /**
    No packet belongs to both protocols, so the transport ignores the synchronizer's packets and the other way round.
   */
  lemma ProtocolsDisjoint(data: bytes)
    ensures TransportWire.Parse(data).None? || DecodeHeader(data).None?
  {
  }

  // ----- building the packets -----

  /** The zeroed buffer of a request, filled in. */
  method EncodeRequest(sequence: u32, t1: u64, address: RadioAddress) returns (request: array<u8>)
    requires |address| <= MAX_ADDRESS_BYTES
    ensures fresh(request) && request[..] == Written(Request(sequence, t1, address))
  {
    request := new u8[REQUEST_BYTES](_ => 0);
    BeginFrame(request, RequestType, sequence);
    PutField(request, 8, t1, 8, Header(RequestType, sequence));
    ghost var head := Header(RequestType, sequence) + LittleEndian(t1, 8);
    request[ADDRESS_LENGTH_OFFSET] := |address|;
    CopyAddress(request, address, head);
  }

  method CopyAddress(request: array<u8>, address: RadioAddress, ghost head: bytes)
    requires |address| <= MAX_ADDRESS_BYTES && |head| == ADDRESS_LENGTH_OFFSET
    requires request[..] == head + [|address|] + Zeros(MAX_ADDRESS_BYTES)
    modifies request
    ensures request[..] == head + [|address|] + address + Zeros(MAX_ADDRESS_BYTES - |address|)
  {
    assert request.Length == |request[..]| == REQUEST_BYTES;
    var i := 0;
    while i < |address|
      invariant i <= |address|
      invariant request[..] == head + [|address|] + address[..i] + Zeros(MAX_ADDRESS_BYTES - i)
    {
      request[ADDRESS_OFFSET + i] := address[i];
      i := i + 1;
    }
    assert address[..i] == address;
  }

  /** Appends a field to a buffer that is zero from there on. */
  method PutField(p: array<u8>, at: nat, value: nat, size: nat, ghost before: bytes)
    requires |before| == at && at + size <= p.Length && p[..] == before + Zeros(p.Length - |before|)
    modifies p
    ensures p[..] == before + LittleEndian(value, size) + Zeros(p.Length - |before| - size)
  {
    assert p[..at] == before;
    assert p[at + size..] == Zeros(p.Length - |before| - size);
    WriteBytes(p, at, value, size);
  }

  method BeginFrame(p: array<u8>, kind: MessageType, sequence: u32)
    requires CLOCK_HEADER_BYTES <= p.Length && p[..] == Zeros(p.Length)
    modifies p
    ensures p[..] == Header(kind, sequence) + Zeros(p.Length - CLOCK_HEADER_BYTES)
  {
    WriteU16(p, 0, 0x5953);
    p[2], p[3] := CLOCK_VERSION, TypeByte(kind);
    assert p[..4] == [CLOCK_MAGIC_LOW, CLOCK_MAGIC_HIGH, CLOCK_VERSION, TypeByte(kind)];
    PutField(p, 4, sequence, 4, p[..4]);
  }

  /** The zeroed buffer of a response, filled in. */
  method EncodeResponse(sequence: u32, t1: u64, t2: u64, t3: u64) returns (response: array<u8>)
    ensures fresh(response) && response[..] == Written(Response(sequence, t1, t2, t3))
  {
    response := new u8[RESPONSE_BYTES](_ => 0);
    BeginFrame(response, ResponseType, sequence);
    ghost var head := Header(ResponseType, sequence);
    PutField(response, 8, t1, 8, head);
    PutField(response, 16, t2, 8, head + LittleEndian(t1, 8));
    PutField(response, 24, t3, 8, head + LittleEndian(t1, 8) + LittleEndian(t2, 8));
  }
}
