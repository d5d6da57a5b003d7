/** The clock synchronizer as it updates itself in place, one call at a time. */
module ClockSynchronizers {
  import opened RadioTypes
  import opened ByteCodec
  import opened Radios
  import opened ClockWire
  import opened ClockSteps

  function LinkOf(radio: Radio): Link {
    Link(radio.mtu, radio.addressBytes, radio.localAddress, radio.receiveTimestamps)
  }

  /** The radio's verdict on the next frame it is given. */
  predicate WillTake(radio: Radio, attempts: nat) {
    radio.verdicts(attempts).Accepted?
  }

  /** A radio that was given at most one frame. */
  function AfterSend(radio: Radio, r: RadioState, out: Option<Transmission>): RadioState {
    match out
    case None => r
    case Some(t) => r.(attempts := r.attempts + 1, sent := r.sent + if WillTake(radio, r.attempts) then [t] else [])
  }

  /** A reference's answer: it returns T1 as it came. */
  function Answer(config: Config, link: Link, packet: Packet, sequence: u32, t2: u64, t3: u64): Option<Transmission> {
    match AnswerTo(config, link, packet)
    case None => None
    case Some(destination) =>
      Some(Transmission(destination, Written(Response(sequence, U64At(packet.data, 8), t2, t3))))
  }

  /** A client's request. */
  function RequestOut(s: ClockState, link: Link, started: bool, t1: u64): Option<Transmission> {
    if RequestRefusal(s, link, started).Some? then None
    else
      Some(Transmission(s.config.referencePeer, Written(Request(SequenceFrom(s.nextSequence), t1, link.localAddress))))
  }

  /** What a packet makes the synchronizer send. */
  function PacketOut(s: ClockState, link: Link, sameRadio: bool, packet: Packet, t2: u64, t3: u64): Option<Transmission>
  {
    if !Seen(s, sameRadio, packet) || (s.config.requireReceiveTimestamp && packet.receiveTimestamp == 0) then None
    else
      match DecodeHeader(packet.data).value
      case (RequestType, sequence) => Answer(s.config, link, packet, sequence, t2, t3)
      case (ResponseType, _) => None
  }

  /**
    A reference answers every request in order that could have come from where it says, and returns its number and its
    T1 to that address.
   */
  lemma AnswerEchoesRequest(config: Config, link: Link, packet: Packet, m: ClockMessage, t2: u64, t3: u64)
    requires m.Request? && Legal(m) && packet.data == Written(m)
    ensures DecodeHeader(packet.data) == Some((RequestType, m.sequence))
    ensures var out := Answer(config, link, packet, m.sequence, t2, t3);
            && (out.Some? <==>
                  && IsReferenceMode(config.mode) && (IsValidAddress(packet.source) ==> packet.source == m.address)
                  && (link.addressBytes != 0 ==> |m.address| == link.addressBytes))
            && (out.Some? ==>
                  && out.value.nextHop == m.address
                  && Read(out.value.frame) == Some(Response(m.sequence, m.t1, t2, t3)))
  {
    ReadWritten(m);
    ReadWritten(Response(m.sequence, m.t1, t2, t3));
  }

  /** The clock readings a packet's processing may take, in order: system, monotonic, system again. */
  datatype Readings = Readings(system: u64, monotonic: u64, later: u64)

  class ClockSynchronizer {
    const radio: Radio
    var config: Config
    var nextSequence: u32
    var pendingSequence: u32
    var lastRequest: u64
    var initialized: bool
    var stats: Statistics
    var samples: seq<Sample>  // what was submitted to the clock

    function State(): ClockState
      reads this
    {
      ClockState(nextSequence, pendingSequence, lastRequest, initialized, config, stats, samples)
    }

    constructor (radio: Radio)
      ensures this.radio == radio
      ensures State() == ClockState(1, 0, 0, false, Config(Disabled, [], 1000, false), NO_STATISTICS, [])
    {
      this.radio, config := radio, Config(Disabled, [], 1000, false);
      nextSequence, pendingSequence, lastRequest, initialized := 1, 0, 0, false;
      stats, samples := NO_STATISTICS, [];
    }

    method RecoverSystemTimestamp(packet: Packet, system: u64, monotonic: u64) returns (time: u64)
      modifies this`stats
      ensures time == Recovered(packet.receiveTimestamp, system, monotonic)
      ensures stats == CountFallback(old(stats), packet.receiveTimestamp)
    {
      var received := packet.receiveTimestamp;
      if received == 0 {
        stats := stats.(timestampFallbacks := Count(stats.timestampFallbacks));
        return system;
      }
      if monotonic <= received {
        return system;
      }
      var elapsed := monotonic - received;
      return if system >= elapsed then system - elapsed else 0;
    }

    method CountIgnoredFrame()
      modifies this`stats
      ensures stats == CountIgnored(old(stats))
    {
      stats := stats.(ignoredFrames := Count(stats.ignoredFrames));
    }

    /** Answers a request, if this is a reference and the request is in order. */
    method ProcessRequest(packet: Packet, sequence: u32, readings: Readings)
      modifies this`stats, radio`attempts, radio`sent
      ensures State() == AfterRequest(old(State()), LinkOf(radio), packet, WillTake(radio, old(radio.attempts)))
      ensures var t2 := Recovered(packet.receiveTimestamp, readings.system, readings.monotonic);
              var out := Answer(config, LinkOf(radio), packet, sequence, t2, readings.later);
              radio.State() == AfterSend(radio, old(radio.State()), out)
    {
      if !IsReferenceMode(config.mode) || |packet.data| != REQUEST_BYTES {
        CountIgnoredFrame();
        return;
      }
      var embedded := DecodeRequestAddress(packet.data);
      if !IsValidAddress(embedded) {
        CountIgnoredFrame();
        return;
      }
      var destination := embedded;
      if IsValidAddress(packet.source) {
        if packet.source != embedded {
          CountIgnoredFrame();
          return;
        }
        destination := packet.source;
      }
      if radio.addressBytes != 0 && |destination| != radio.addressBytes {
        CountIgnoredFrame();
        return;
      }
      Reply(destination, packet, sequence, readings);
    }

    /** The part of ProcessRequest that counts the request and answers it. */
    method Reply(destination: RadioAddress, packet: Packet, sequence: u32, readings: Readings)
      requires |packet.data| == REQUEST_BYTES
      modifies this`stats, radio`attempts, radio`sent
      ensures stats == CountAnswer(old(stats), packet.receiveTimestamp, WillTake(radio, old(radio.attempts)))
      ensures var t2 := Recovered(packet.receiveTimestamp, readings.system, readings.monotonic);
              var response := Response(sequence, U64At(packet.data, 8), t2, readings.later);
              var out := Transmission(destination, Written(response));
              radio.State() == AfterSend(radio, old(radio.State()), Some(out))
    {
      stats := stats.(requestsReceived := Count(stats.requestsReceived));
      var t1 := ReadU64(packet.data, 8);
      var t2 := RecoverSystemTimestamp(packet, readings.system, readings.monotonic);
      var response := EncodeResponse(sequence, t1, t2, readings.later);
      var sent := radio.Send(destination, response[..]);
      if sent.Accepted? {
        stats := stats.(responsesSent := Count(stats.responsesSent));
      } else {
        stats := stats.(sendFailures := Count(stats.sendFailures));
      }
    }

    static method ReadU64(data: bytes, at: nat) returns (value: u64)
      requires at + 8 <= |data|
      ensures value == U64At(data, at)
    {
      PowerValues();
      value := ReadBytes(data, at, 8);
    }

    /** Takes the response to the pending request and submits its sample; `accept` is the clock's verdict on it. */
    method ProcessResponse(packet: Packet, sequence: u32, readings: Readings, accept: bool)
      modifies this`stats, this`pendingSequence, this`samples
      ensures var t4 := Recovered(packet.receiveTimestamp, readings.system, readings.monotonic);
              State() == AfterResponse(old(State()), packet, sequence, t4, accept)
    {
      if !IsClientMode(config.mode) || |packet.data| != RESPONSE_BYTES {
        CountIgnoredFrame();
        return;
      }
      if IsValidAddress(packet.source) && IsValidAddress(config.referencePeer)
         && packet.source != config.referencePeer {
        CountIgnoredFrame();
        return;
      }
      var pending := pendingSequence;
      if pending == 0 || pending != sequence {
        CountIgnoredFrame();
        return;
      }
      pendingSequence := 0;
      stats := stats.(responsesReceived := Count(stats.responsesReceived));
      var t1 := ReadU64(packet.data, 8);
      var t2 := ReadU64(packet.data, 16);
      var t3 := ReadU64(packet.data, 24);
      var t4 := RecoverSystemTimestamp(packet, readings.system, readings.monotonic);
      samples := samples + [Sample(t1, t2, t3, t4)];
      if accept {
        stats := stats.(samplesAccepted := Count(stats.samplesAccepted));
      } else {
        stats := stats.(samplesRejected := Count(stats.samplesRejected));
      }
    }

    /** One packet from a radio. The verdict that counts is the radio's on an answer, the clock's on a sample. */
    method OnRadioPacketReceived(from: Radio, packet: Packet, readings: Readings, accept: bool)
      returns (ghost good: bool)
      modifies this`stats, this`pendingSequence, this`samples, radio`attempts, radio`sent
      ensures good == if DecodeHeader(packet.data).Some? && DecodeHeader(packet.data).value.0 == ResponseType
                      then accept
                      else WillTake(radio, old(radio.attempts))
      ensures var arrival := Recovered(packet.receiveTimestamp, readings.system, readings.monotonic);
              && State() == AfterPacket(old(State()), LinkOf(radio), from == radio, packet, arrival, good)
              && radio.State() == AfterSend(radio, old(radio.State()),
                   PacketOut(old(State()), LinkOf(radio), from == radio, packet, arrival, readings.later))
    {
      var header := DecodeHeader(packet.data);
      good := if header.Some? && header.value.0 == ResponseType then accept else WillTake(radio, radio.attempts);
      if !initialized || from != radio || header.None? {
        return;
      }
      if config.requireReceiveTimestamp && packet.receiveTimestamp == 0 {
        CountIgnoredFrame();
        return;
      }
      if header.value.0 == RequestType {
        ProcessRequest(packet, header.value.1, readings);
      } else {
        ProcessResponse(packet, header.value.1, readings, accept);
      }
    }

    /** The next sequence number; the counter wraps and 0 is skipped. */
    method TakeSequence() returns (sequence: u32)
      modifies this`nextSequence
      ensures sequence == SequenceFrom(old(nextSequence)) && nextSequence == FollowingSequence(old(nextSequence))
    {
      sequence := nextSequence;
      nextSequence := (nextSequence + 1) % U32_MODULUS;
      if sequence == 0 {
        sequence := nextSequence;
        nextSequence := (nextSequence + 1) % U32_MODULUS;
        if sequence == 0 {
          assert false;  // the source takes 1 here; only a thread overtaken by others gets here, see ClockProtocol
        }
      }
    }

    /** Sends a request. `t1` is the system clock and `stamp` the monotonic clock when they are read on the way. */
    method RequestSynchronization(t1: u64, stamp: u64) returns (status: RadioSendStatus)
      modifies this`stats, this`nextSequence, this`pendingSequence, this`lastRequest, radio`attempts, radio`sent
      ensures State() == AfterSynchronization(old(State()), LinkOf(radio), radio.started, stamp,
                                              WillTake(radio, old(radio.attempts)))
      ensures radio.State() == AfterSend(radio, old(radio.State()),
                                         RequestOut(old(State()), LinkOf(radio), radio.started, t1))
      ensures var refusal := RequestRefusal(old(State()), LinkOf(radio), radio.started);
              status == if refusal.Some? then refusal.value else radio.verdicts(old(radio.attempts))
    {
      stats := stats.(requestsAttempted := Count(stats.requestsAttempted));
      if !initialized || !radio.started {
        stats := stats.(sendFailures := Count(stats.sendFailures));
        return NotStarted;
      }
      if !IsClientMode(config.mode) || !IsValidAddress(config.referencePeer) || !IsValidAddress(radio.localAddress) {
        stats := stats.(sendFailures := Count(stats.sendFailures));
        return InvalidAddress;
      }
      var sequence := TakeSequence();
      var request := EncodeRequest(sequence, t1, radio.localAddress);
      pendingSequence := sequence;
      lastRequest := stamp;
      status := radio.Send(config.referencePeer, request[..]);
      if status.Accepted? {
        stats := stats.(requestsSent := Count(stats.requestsSent));
      } else {
        pendingSequence := 0;
        stats := stats.(sendFailures := Count(stats.sendFailures));
      }
    }

    /** Sends a request if one is due at `now`. */
    method Update(now: u64, t1: u64, stamp: u64)
      modifies this`stats, this`nextSequence, this`pendingSequence, this`lastRequest, radio`attempts, radio`sent
      ensures State() == Next(old(State()), LinkOf(radio),
                              UpdateCall(now, radio.started, stamp, WillTake(radio, old(radio.attempts))))
      ensures var out := if !IsDue(old(State()), now) then None
                         else RequestOut(old(State()), LinkOf(radio), radio.started, t1);
              radio.State() == AfterSend(radio, old(radio.State()), out)
    {
      if !initialized {
        return;
      }
      if !IsClientMode(config.mode) || config.intervalMilliseconds == 0 {
        return;
      }
      var interval := config.intervalMilliseconds * 1_000_000;
      var last := lastRequest;
      if last == 0 || (now - last) % U64_MODULUS >= interval {
        var status := RequestSynchronization(t1, stamp);
      }
    }

    method Shutdown()
      modifies this`initialized, this`pendingSequence, this`lastRequest
      ensures State() == AfterShutdown(old(State()))
    {
      initialized := false;
      pendingSequence := 0;
      lastRequest := 0;
    }

    /**
      Starts over with a configuration; `subscribed` is whether the radio lets the synchronizer observe its packets.
     */
    method Initialize(config: Config, subscribed: bool) returns (ok: bool)
      modifies this`config, this`initialized, this`pendingSequence, this`lastRequest
      ensures State() == AfterInitialize(old(State()), LinkOf(radio), config, subscribed)
      ensures initialized == ok
      ensures ok <==>
                && subscribed && 32 <= radio.mtu && (config.requireReceiveTimestamp ==> radio.receiveTimestamps)
                && (config.mode == Client || config.mode == ClientAndReference ==>
                      && 1 <= |config.referencePeer| <= 8 && 1 <= |radio.localAddress| <= 8
                      && (radio.addressBytes != 0 ==>
                            |config.referencePeer| == |radio.localAddress| == radio.addressBytes))
    {
      Shutdown();
      if radio.mtu < RESPONSE_BYTES {
        return false;
      }
      if config.requireReceiveTimestamp && !radio.receiveTimestamps {
        return false;
      }
      if IsClientMode(config.mode) {
        if !IsValidAddress(config.referencePeer) || !IsValidAddress(radio.localAddress) {
          return false;
        }
        if radio.addressBytes != 0
           && (|config.referencePeer| != radio.addressBytes || |radio.localAddress| != radio.addressBytes) {
          return false;
        }
      }
      this.config := config;
      if !subscribed {
        return false;
      }
      pendingSequence := 0;
      lastRequest := 0;
      initialized := true;
      return true;
    }

    method ResetStatistics()
      modifies this`stats
      ensures State() == Next(old(State()), LinkOf(radio), ResetStatisticsCall)
    {
      stats := NO_STATISTICS;
    }
  }
}
