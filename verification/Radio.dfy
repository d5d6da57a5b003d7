/** A link-layer radio as the transport sees it, and what sending one message through it does. */
module Radios {
  import opened Arithmetic
  import opened RadioTypes
  import opened Fragmentation
  import opened TransportWire

  datatype RadioState = RadioState(started: bool, attempts: nat, sent: seq<Transmission>)

  datatype Transmission = Transmission(nextHop: RadioAddress, frame: bytes)

  /**
    `startable` says whether the provider can be started, and `verdicts(k)` is its answer to the k-th call of Send; both
    are fixed in advance but otherwise arbitrary. `sent` are the frames it took.
   */
  class Radio {
    const mtu: u16
    const broadcast: bool
    const addressBytes: u8
    const localAddress: RadioAddress
    const receiveTimestamps: bool
    const startable: bool
    const verdicts: nat -> RadioSendStatus
    var started: bool
    var attempts: nat
    var sent: seq<Transmission>

    ghost function State(): RadioState
      reads this
    {
      RadioState(started, attempts, sent)
    }

    constructor (mtu: u16, broadcast: bool, addressBytes: u8, localAddress: RadioAddress, receiveTimestamps: bool,
                 startable: bool, verdicts: nat -> RadioSendStatus)
      ensures this.mtu == mtu && this.broadcast == broadcast && this.addressBytes == addressBytes
      ensures this.localAddress == localAddress && this.receiveTimestamps == receiveTimestamps
      ensures this.startable == startable && this.verdicts == verdicts && !started && attempts == 0 && sent == []
    {
      this.mtu, this.broadcast, this.addressBytes, this.verdicts := mtu, broadcast, addressBytes, verdicts;
      this.localAddress, this.receiveTimestamps, this.startable := localAddress, receiveTimestamps, startable;
      started, attempts, sent := false, 0, [];
    }

    method Start() returns (success: bool)
      modifies this`started
      ensures success == startable && started == (startable || old(started))
    {
      started := startable || started;
      success := startable;
    }

    method Stop()
      modifies this`started
      ensures !started
    {
      started := false;
    }

    method Send(nextHop: RadioAddress, frame: bytes) returns (status: RadioSendStatus)
      modifies this`attempts, this`sent
      ensures status == verdicts(old(attempts)) && attempts == old(attempts) + 1
      ensures sent == old(sent) + if status.Accepted? then [Transmission(nextHop, frame)] else []
    {
      status := verdicts(attempts);
      attempts := attempts + 1;
      if status.Accepted? {
        sent := sent + [Transmission(nextHop, frame)];
      }
    }
  }

  datatype SendStatus =
    | Accepted | InvalidDestination | InvalidPayload | NoRoute
    | InterfaceUnavailable | MessageTooLarge | RadioRejected

  datatype SendResult = SendResult(status: SendStatus, link: RadioSendStatus)

  ghost predicate AllTaken(verdicts: nat -> RadioSendStatus, lo: nat, hi: nat) {
    forall j: nat | lo <= j < hi :: verdicts(j).Accepted?
  }

  /** How many of `count` frames a radio takes before it first refuses one. */
  function Taken(verdicts: nat -> RadioSendStatus, attempts: nat, count: nat): (k: nat)
    ensures k <= count && AllTaken(verdicts, attempts, attempts + k)
    ensures k < count ==> !verdicts(attempts + k).Accepted?
    decreases count
  {
    if count == 0 || !verdicts(attempts).Accepted? then 0
    else Taken(verdicts, attempts + 1, count - 1) + 1
  }

  lemma TakenIs(verdicts: nat -> RadioSendStatus, attempts: nat, count: nat, k: nat)
    requires k <= count && AllTaken(verdicts, attempts, attempts + k)
    requires k < count ==> !verdicts(attempts + k).Accepted?
    ensures Taken(verdicts, attempts, count) == k
  {
    var atTaken := verdicts(attempts + Taken(verdicts, attempts, count));
  }

  /** The chunk size a link's MTU leaves room for; 0 if none. */
  function FragmentPayloadBytes(mtu: u16): (chunk: u8)
    ensures 0 < chunk ==> WIRE_HEADER_BYTES + chunk <= mtu
    ensures chunk < 255 ==> mtu <= WIRE_HEADER_BYTES + chunk
  {
    if mtu <= WIRE_HEADER_BYTES then 0 else Min(255, mtu - WIRE_HEADER_BYTES)
  }

  /** Whether a payload gets as far as the radio at all. */
  function Refusal(started: bool, mtu: u16, n: nat): Option<SendResult> {
    var chunk := FragmentPayloadBytes(mtu);
    if !started then Some(SendResult(InterfaceUnavailable, NotStarted))
    else if chunk == 0 then Some(SendResult(InterfaceUnavailable, Unsupported))
    else if Sendable(n, chunk) then None
    else Some(SendResult(MessageTooLarge, NativeFailure))
  }

  /** The transmissions of a message's frames to one neighbour. */
  function To(nextHop: RadioAddress, frames: seq<bytes>): (ts: seq<Transmission>)
    ensures |ts| == |frames|
  {
    seq(|frames|, (i: nat) requires i < |frames| => Transmission(nextHop, frames[i]))
  }

  /** The result of sending a message of `n` bytes through a radio in state `s`. */
  function ViaResult(r: Radio, s: RadioState, n: nat): SendResult {
    match Refusal(s.started, r.mtu, n)
    case Some(refused) => refused
    case None =>
      var count := FragmentCount(n, FragmentPayloadBytes(r.mtu));
      var k := Taken(r.verdicts, s.attempts, count);
      if k == count then SendResult(SendStatus.Accepted, RadioSendStatus.Accepted)
      else SendResult(RadioRejected, r.verdicts(s.attempts + k))
  }

  /** The state of a radio in state `s` once a message was sent through it: it is called until it refuses a frame. */
  function AfterVia(r: Radio, s: RadioState, nextHop: RadioAddress, id: Identity, hop: u8, payload: bytes): RadioState {
    if Refusal(s.started, r.mtu, |payload|).Some? then s else
    var frames := Frames(id, payload, FragmentPayloadBytes(r.mtu), hop);
    var k := Taken(r.verdicts, s.attempts, |frames|);
    s.(attempts := s.attempts + Min(|frames|, k + 1), sent := s.sent + To(nextHop, frames[..k]))
  }

  /**
    What a caller may conclude: accepted exactly if every frame of the message was taken; otherwise a proper prefix
    was. Every frame taken fits the link and is read back as the fragment it carries.
   */
  lemma SentIsPrefix(r: Radio, s: RadioState, nextHop: RadioAddress, id: Identity, hop: u8, payload: bytes)
    requires Refusal(s.started, r.mtu, |payload|).None?
    ensures var chunk, after := FragmentPayloadBytes(r.mtu), AfterVia(r, s, nextHop, id, hop, payload);
            && s.sent <= after.sent && Sendable(|payload|, chunk)
            && var frames, taken := Frames(id, payload, chunk, hop), after.sent[|s.sent|..];
            && |taken| <= |frames| && taken == To(nextHop, frames[..|taken|])
            && (ViaResult(r, s, |payload|).status.Accepted? <==> |taken| == |frames|)
            && (forall i | 0 <= i < |taken| ::
                  && |taken[i].frame| <= r.mtu
                  && Parse(taken[i].frame) == Some(FragmentAt(id, payload, chunk, hop, i)))
  {
    FramesCarryPayload(id, payload, FragmentPayloadBytes(r.mtu), hop);
    var frames := Frames(id, payload, FragmentPayloadBytes(r.mtu), hop);
    var k := Taken(r.verdicts, s.attempts, |frames|);
    assert AfterVia(r, s, nextHop, id, hop, payload).sent[|s.sent|..] == To(nextHop, frames[..k]);
  }

  /**
    What a caller learns. A stopped radio and one without room for a byte are not called at all, and neither is a radio
    for a message over the bound or of more than 255 fragments; any other message is tried, and a refusal carries the
    verdict of the last call made.
   */
  lemma ViaOutcome(r: Radio, s: RadioState, nextHop: RadioAddress, id: Identity, hop: u8, payload: bytes)
    ensures var after, result := AfterVia(r, s, nextHop, id, hop, payload), ViaResult(r, s, |payload|);
            if !s.started then after == s && result == SendResult(InterfaceUnavailable, NotStarted)
            else if r.mtu <= 15 then after == s && result == SendResult(InterfaceUnavailable, Unsupported)
            else if |payload| > MAX_MESSAGE_BYTES || |payload| > 255 * Min(255, r.mtu - 15) then
              after == s && result == SendResult(MessageTooLarge, NativeFailure)
            else
              && s.attempts < after.attempts
              && result.link == r.verdicts(after.attempts - 1)
              && result.status == if result.link.Accepted? then SendStatus.Accepted else RadioRejected
  {
    if r.mtu > 15 {
      SendableBound(|payload|, FragmentPayloadBytes(r.mtu));
    }
  }

  /** Copies a chunk behind the header; the frame buffer holds 255 payload bytes. */
  method CopyPayload(frame: array<u8>, payload: bytes, offset: nat, size: nat)
    requires WIRE_HEADER_BYTES + size <= frame.Length && offset + size <= |payload|
    modifies frame
    ensures frame[..WIRE_HEADER_BYTES] == old(frame[..WIRE_HEADER_BYTES])
    ensures frame[WIRE_HEADER_BYTES..WIRE_HEADER_BYTES + size] == payload[offset..offset + size]
  {
    var i := 0;
    while i < size
      invariant i <= size
      invariant frame[..WIRE_HEADER_BYTES] == old(frame[..WIRE_HEADER_BYTES])
      invariant frame[WIRE_HEADER_BYTES..WIRE_HEADER_BYTES + i] == payload[offset..offset + i]
    {
      ghost var copied := frame[WIRE_HEADER_BYTES..WIRE_HEADER_BYTES + i];
      frame[WIRE_HEADER_BYTES + i] := payload[offset + i];
      assert frame[WIRE_HEADER_BYTES..WIRE_HEADER_BYTES + i + 1] == copied + [payload[offset + i]];
      assert payload[offset..offset + i + 1] == payload[offset..offset + i] + [payload[offset + i]];
      i := i + 1;
    }
  }

  /** Builds the frame of fragment `index` in the reused frame buffer. */
  method BuildFrame(frame: array<u8>, id: Identity, hop: u8, payload: bytes, chunk: u8, count: u8, index: u8)
    returns (size: nat)
    requires frame.Length == WIRE_HEADER_BYTES + 255 && Sendable(|payload|, chunk)
    requires count == FragmentCount(|payload|, chunk) && index < count
    modifies frame
    ensures WIRE_HEADER_BYTES + size <= frame.Length
    ensures frame[..WIRE_HEADER_BYTES + size] == Frame(FragmentAt(id, payload, chunk, hop, index))
  {
    var offset := index * chunk;
    var remaining := if |payload| > offset then |payload| - offset else 0;
    size := Min(chunk, remaining);
    ghost var f := FragmentAt(id, payload, chunk, hop, index);
    ChunkLength(payload, chunk, index);
    var part := if size == 0 then [] else payload[offset..offset + size];
    assert part == f.payload;
    EncodeHeader(frame, Fragment(id, index, count, chunk, hop, part));
    assert frame[..WIRE_HEADER_BYTES] == HeaderBytes(f);
    if size != 0 {
      CopyPayload(frame, payload, offset, size);
    }
    ghost var end := WIRE_HEADER_BYTES + size;
    assert frame[..end] == frame[..WIRE_HEADER_BYTES] + frame[WIRE_HEADER_BYTES..end];
  }

  /** Sends a message through one radio, fragment by fragment, until the radio refuses one. */
  method SendVia(radio: Radio, nextHop: RadioAddress, id: Identity, hop: u8, payload: bytes)
    returns (result: SendResult)
    modifies radio`attempts, radio`sent
    ensures result == ViaResult(radio, old(radio.State()), |payload|)
    ensures radio.State() == AfterVia(radio, old(radio.State()), nextHop, id, hop, payload)
  {
    if !radio.started {
      return SendResult(InterfaceUnavailable, NotStarted);
    }
    var chunk := FragmentPayloadBytes(radio.mtu);
    if chunk == 0 {
      return SendResult(InterfaceUnavailable, Unsupported);
    }
    if |payload| > MAX_MESSAGE_BYTES {
      return SendResult(MessageTooLarge, NativeFailure);
    }
    var count := FragmentCount(|payload|, chunk);
    if count > 255 {
      return SendResult(MessageTooLarge, NativeFailure);
    }
    result := SendFragments(radio, nextHop, id, hop, payload, chunk, count);
  }

  /** The loop of SendVia. */
  method SendFragments(radio: Radio, nextHop: RadioAddress, id: Identity, hop: u8, payload: bytes, chunk: u8, count: u8)
    returns (result: SendResult)
    requires Sendable(|payload|, chunk) && count == FragmentCount(|payload|, chunk)
    modifies radio`attempts, radio`sent
    ensures var k, frames := Taken(radio.verdicts, old(radio.attempts), count), Frames(id, payload, chunk, hop);
            && radio.attempts == old(radio.attempts) + Min(count, k + 1)
            && radio.sent == old(radio.sent) + To(nextHop, frames[..k])
            && result == if k == count then SendResult(SendStatus.Accepted, RadioSendStatus.Accepted)
                         else SendResult(RadioRejected, radio.verdicts(old(radio.attempts) + k))
  {
    var frame := new u8[WIRE_HEADER_BYTES + 255](_ => 0);
    ghost var frames := Frames(id, payload, chunk, hop);
    var index := 0;
    while index < count
      invariant index <= count
      invariant radio.attempts == old(radio.attempts) + index
      invariant AllTaken(radio.verdicts, old(radio.attempts), old(radio.attempts) + index)
      invariant radio.sent == old(radio.sent) + To(nextHop, frames[..index])
    {
      var size := BuildFrame(frame, id, hop, payload, chunk, count, index);
      var status := radio.Send(nextHop, frame[..WIRE_HEADER_BYTES + size]);
      if !status.Accepted? {
        TakenIs(radio.verdicts, old(radio.attempts), count, index);
        return SendResult(RadioRejected, status);
      }
      ToNext(nextHop, frames, index);
      index := index + 1;
    }
    TakenIs(radio.verdicts, old(radio.attempts), count, count);
    return SendResult(SendStatus.Accepted, RadioSendStatus.Accepted);
  }

  lemma ToNext(nextHop: RadioAddress, frames: seq<bytes>, k: nat)
    requires k < |frames|
    ensures To(nextHop, frames[..k + 1]) == To(nextHop, frames[..k]) + [Transmission(nextHop, frames[k])]
  {
  }
}
