/** What each call of the clock synchronizer does to its state, and what every run of such calls keeps. */
module ClockSteps {
  import opened RadioTypes
  import opened ClockWire

  datatype Mode = Disabled | Client | Reference | ClientAndReference

  datatype Config =
    Config(mode: Mode, referencePeer: RadioAddress, intervalMilliseconds: u32, requireReceiveTimestamp: bool)

  datatype Statistics = Statistics(
    requestsAttempted: u64, requestsSent: u64, requestsReceived: u64, responsesSent: u64, responsesReceived: u64,
    sendFailures: u64, ignoredFrames: u64, samplesAccepted: u64, samplesRejected: u64, timestampFallbacks: u64)

  const NO_STATISTICS := Statistics(0, 0, 0, 0, 0, 0, 0, 0, 0, 0)

  datatype Sample = Sample(t1: u64, t2: u64, t3: u64, t4: u64)

  /** A link packet; a source or receive timestamp the provider does not know is empty or zero. */
  datatype Packet = Packet(data: bytes, source: RadioAddress, receiveTimestamp: u64)

  /** `samples` lists what was submitted to the clock. */
  datatype ClockState = ClockState(
    nextSequence: u32, pending: u32, lastRequest: u64, initialized: bool, config: Config, stats: Statistics,
    samples: seq<Sample>)

  /** What the radio says of itself. */
  datatype Link = Link(mtu: u16, addressBytes: u8, localAddress: RadioAddress, receiveTimestamps: bool)

  predicate IsClientMode(mode: Mode) {
    mode == Client || mode == ClientAndReference
  }

  predicate IsReferenceMode(mode: Mode) {
    mode == Reference || mode == ClientAndReference
  }

  /** An atomic 64-bit counter's increment. */
  function Count(x: u64): u64 {
    (x + 1) % U64_MODULUS
  }

  /** The synchronized time of a packet's arrival, from its monotonic receive timestamp and the two clocks read now. */
  function Recovered(received: u64, system: u64, monotonic: u64): u64 {
    if received == 0 || monotonic <= received then system
    else if system >= monotonic - received then system - (monotonic - received)
    else 0
  }

  // ----- one call -----

  function CountIgnored(stats: Statistics): Statistics {
    stats.(ignoredFrames := Count(stats.ignoredFrames))
  }

  /** Recovering a timestamp counts the packets that carry none. */
  function CountFallback(stats: Statistics, received: u64): Statistics {
    if received == 0 then stats.(timestampFallbacks := Count(stats.timestampFallbacks)) else stats
  }

  function CountAnswer(stats: Statistics, received: u64, taken: bool): Statistics {
    var counted := CountFallback(stats.(requestsReceived := Count(stats.requestsReceived)), received);
    if taken then counted.(responsesSent := Count(counted.responsesSent))
    else counted.(sendFailures := Count(counted.sendFailures))
  }

  function CountSample(stats: Statistics, received: u64, accepted: bool): Statistics {
    var counted := CountFallback(stats.(responsesReceived := Count(stats.responsesReceived)), received);
    if accepted then counted.(samplesAccepted := Count(counted.samplesAccepted))
    else counted.(samplesRejected := Count(counted.samplesRejected))
  }

  function CountRequest(stats: Statistics, taken: bool): Statistics {
    var counted := stats.(requestsAttempted := Count(stats.requestsAttempted));
    if taken then counted.(requestsSent := Count(counted.requestsSent))
    else counted.(sendFailures := Count(counted.sendFailures))
  }

  function Ignored(s: ClockState): ClockState {
    s.(stats := CountIgnored(s.stats))
  }

  /** Where a reference answers a request; nowhere if it ignores it. */
  function AnswerTo(config: Config, link: Link, packet: Packet): Option<RadioAddress> {
    if !IsReferenceMode(config.mode) || |packet.data| != REQUEST_BYTES then None
    else
      var embedded := DecodeRequestAddress(packet.data);
      if !IsValidAddress(embedded) then None
      else if IsValidAddress(packet.source) && packet.source != embedded then None
      else if link.addressBytes != 0 && |embedded| != link.addressBytes then None
      else Some(embedded)
  }

  function AfterRequest(s: ClockState, link: Link, packet: Packet, taken: bool): ClockState {
    if AnswerTo(s.config, link, packet).None? then Ignored(s)
    else s.(stats := CountAnswer(s.stats, packet.receiveTimestamp, taken))
  }

  /** A response is taken if it answers the pending request and comes from the reference, as far as that is known. */
  predicate Answers(s: ClockState, packet: Packet, sequence: u32) {
    && IsClientMode(s.config.mode) && |packet.data| == RESPONSE_BYTES
    && !(IsValidAddress(packet.source) && IsValidAddress(s.config.referencePeer)
         && packet.source != s.config.referencePeer)
    && s.pending != 0 && s.pending == sequence
  }

  function SampleOf(packet: Packet, t4: u64): Sample
    requires |packet.data| == RESPONSE_BYTES
  {
    Sample(U64At(packet.data, 8), U64At(packet.data, 16), U64At(packet.data, 24), t4)
  }

  function AfterResponse(s: ClockState, packet: Packet, sequence: u32, t4: u64, accepted: bool): ClockState {
    if !Answers(s, packet, sequence) then Ignored(s)
    else
      s.(pending := 0, samples := s.samples + [SampleOf(packet, t4)],
         stats := CountSample(s.stats, packet.receiveTimestamp, accepted))
  }

  /** Whether the synchronizer counts a packet at all. */
  predicate Seen(s: ClockState, sameRadio: bool, packet: Packet) {
    s.initialized && sameRadio && DecodeHeader(packet.data).Some?
  }

  /** `good` is the verdict of the radio on a response sent, or of the clock on a sample submitted. */
  function AfterPacket(s: ClockState, link: Link, sameRadio: bool, packet: Packet, arrival: u64, good: bool): ClockState
  {
    if !Seen(s, sameRadio, packet) then s
    else if s.config.requireReceiveTimestamp && packet.receiveTimestamp == 0 then Ignored(s)
    else
      match DecodeHeader(packet.data).value
      case (RequestType, _) => AfterRequest(s, link, packet, good)
      case (ResponseType, sequence) => AfterResponse(s, packet, sequence, arrival, good)
  }

  /** Why a request fails before it gets a number. */
  function RequestRefusal(s: ClockState, link: Link, started: bool): Option<RadioSendStatus> {
    if !s.initialized || !started then Some(NotStarted)
    else if !IsClientMode(s.config.mode) then Some(InvalidAddress)
    else if !IsValidAddress(s.config.referencePeer) || !IsValidAddress(link.localAddress) then Some(InvalidAddress)
    else None
  }

  /** The counter's value, skipping 0. */
  function SequenceFrom(next: u32): u32 {
    if next == 0 then 1 else next
  }

  function FollowingSequence(next: u32): u32 {
    (SequenceFrom(next) + 1) % U32_MODULUS
  }

  function AfterSynchronization(s: ClockState, link: Link, started: bool, stamp: u64, taken: bool): ClockState {
    if RequestRefusal(s, link, started).Some? then s.(stats := CountRequest(s.stats, false))
    else
      s.(nextSequence := FollowingSequence(s.nextSequence), lastRequest := stamp,
         pending := if taken then SequenceFrom(s.nextSequence) else 0, stats := CountRequest(s.stats, taken))
  }

  function IntervalNanoseconds(config: Config): u64 {
    config.intervalMilliseconds * 1_000_000
  }

  /** Whether `Update` issues a request; the subtraction wraps around. */
  predicate IsDue(s: ClockState, now: u64) {
    && s.initialized && IsClientMode(s.config.mode) && s.config.intervalMilliseconds != 0
    && (s.lastRequest == 0 || (now - s.lastRequest) % U64_MODULUS >= IntervalNanoseconds(s.config))
  }

  /** Why a configuration is refused. */
  predicate Acceptable(config: Config, link: Link) {
    && RESPONSE_BYTES <= link.mtu
    && (config.requireReceiveTimestamp ==> link.receiveTimestamps)
    && (IsClientMode(config.mode) ==>
          && IsValidAddress(config.referencePeer) && IsValidAddress(link.localAddress)
          && (link.addressBytes != 0 ==> |config.referencePeer| == |link.localAddress| == link.addressBytes))
  }

  function AfterShutdown(s: ClockState): ClockState {
    s.(initialized := false, pending := 0, lastRequest := 0)
  }

  function AfterInitialize(s: ClockState, link: Link, config: Config, subscribed: bool): ClockState {
    var down := AfterShutdown(s);
    if !Acceptable(config, link) then down
    else if !subscribed then down.(config := config)
    else down.(config := config, initialized := true)
  }

  // ----- runs of calls -----

  datatype ClockEvent =
    | RequestCall(started: bool, stamp: u64, taken: bool)
    | UpdateCall(now: u64, started: bool, stamp: u64, taken: bool)
    | PacketCall(sameRadio: bool, packet: Packet, arrival: u64, good: bool)
    | InitializeCall(config: Config, subscribed: bool)
    | ShutdownCall
    | ResetStatisticsCall

  function Next(s: ClockState, link: Link, e: ClockEvent): ClockState {
    match e
    case RequestCall(started, stamp, taken) => AfterSynchronization(s, link, started, stamp, taken)
    case UpdateCall(now, started, stamp, taken) =>
      if IsDue(s, now) then AfterSynchronization(s, link, started, stamp, taken) else s
    case PacketCall(sameRadio, packet, arrival, good) => AfterPacket(s, link, sameRadio, packet, arrival, good)
    case InitializeCall(config, subscribed) => AfterInitialize(s, link, config, subscribed)
    case ShutdownCall => AfterShutdown(s)
    case ResetStatisticsCall => s.(stats := NO_STATISTICS)
  }

  function After(s: ClockState, link: Link, events: seq<ClockEvent>): ClockState {
    if events == [] then s
    else Next(After(s, link, events[..|events| - 1]), link, events[|events| - 1])
  }

  // ----- the counters add up -----

  /** Equal as 64-bit counters. */
  predicate SameCount(x: int, y: int) {
    x % 0x1_0000_0000_0000_0000 == y % 0x1_0000_0000_0000_0000
  }

  ghost predicate RequestsBalance(stats: Statistics) {
    SameCount(stats.requestsAttempted + stats.requestsReceived,
              stats.requestsSent + stats.responsesSent + stats.sendFailures)
  }

  ghost predicate SamplesBalance(stats: Statistics) {
    SameCount(stats.responsesReceived, stats.samplesAccepted + stats.samplesRejected)
  }

  /** Counting once in a term of each of two sums keeps them equal up to wrapping. */
  lemma CountBoth(left: int, right: int, x: u64, y: u64)
    requires SameCount(left, right)
    ensures SameCount(left - x + Count(x), right - y + Count(y))
  {
  }

  /** Every request attempted or received ends as sent, answered or failed, and every response as a sample. */
  lemma {:induction false} CountersBalance(s: ClockState, link: Link, events: seq<ClockEvent>)
    requires RequestsBalance(s.stats) && SamplesBalance(s.stats)
    ensures RequestsBalance(After(s, link, events).stats) && SamplesBalance(After(s, link, events).stats)
  {
    if events != [] {
      var rest, e := events[..|events| - 1], events[|events| - 1];
      CountersBalance(s, link, rest);
      CallBalances(After(s, link, rest), link, e);
    }
  }

  /** What a call can do to the statistics. */
  ghost predicate StatisticsStep(before: Statistics, after: Statistics) {
    || after == before
    || after == NO_STATISTICS
    || after == CountIgnored(before)
    || (exists taken :: after == CountRequest(before, taken))
    || (exists received, taken :: after == CountAnswer(before, received, taken))
    || (exists received, accepted :: after == CountSample(before, received, accepted))
  }

  lemma CallStep(s: ClockState, link: Link, e: ClockEvent)
    ensures StatisticsStep(s.stats, Next(s, link, e).stats)
  {
  }

  lemma CallBalances(s: ClockState, link: Link, e: ClockEvent)
    requires RequestsBalance(s.stats) && SamplesBalance(s.stats)
    ensures RequestsBalance(Next(s, link, e).stats) && SamplesBalance(Next(s, link, e).stats)
  {
    CallStep(s, link, e);
    StepBalancesRequests(s.stats, Next(s, link, e).stats);
    StepBalancesSamples(s.stats, Next(s, link, e).stats);
  }

  lemma StepBalancesRequests(before: Statistics, after: Statistics)
    requires StatisticsStep(before, after) && RequestsBalance(before)
    ensures RequestsBalance(after)
  {
    if taken :| after == CountRequest(before, taken) {
      RequestBalances(before, taken);
    } else if received, taken :| after == CountAnswer(before, received, taken) {
      AnswerBalances(before, received, taken);
    }
  }

  lemma RequestBalances(stats: Statistics, taken: bool)
    requires RequestsBalance(stats)
    ensures RequestsBalance(CountRequest(stats, taken))
  {
    var left := stats.requestsAttempted + stats.requestsReceived;
    var right := stats.requestsSent + stats.responsesSent + stats.sendFailures;
    CountBoth(left, right, stats.requestsAttempted, if taken then stats.requestsSent else stats.sendFailures);
  }

  lemma AnswerBalances(stats: Statistics, received: u64, taken: bool)
    requires RequestsBalance(stats)
    ensures RequestsBalance(CountAnswer(stats, received, taken))
  {
    var left := stats.requestsAttempted + stats.requestsReceived;
    var right := stats.requestsSent + stats.responsesSent + stats.sendFailures;
    CountBoth(left, right, stats.requestsReceived, if taken then stats.responsesSent else stats.sendFailures);
  }

  lemma StepBalancesSamples(before: Statistics, after: Statistics)
    requires StatisticsStep(before, after) && SamplesBalance(before)
    ensures SamplesBalance(after)
  {
    var left, right := before.responsesReceived, before.samplesAccepted + before.samplesRejected;
    CountBoth(left, right, before.responsesReceived, before.samplesAccepted);
    CountBoth(left, right, before.responsesReceived, before.samplesRejected);
  }

  /** How many packets were seen since the statistics were last reset. */
  function SeenSince(s: ClockState, link: Link, events: seq<ClockEvent>): nat {
    if events == [] then 0
    else
      var rest, e := events[..|events| - 1], events[|events| - 1];
      if e.ResetStatisticsCall? then 0
      else if e.PacketCall? && Seen(After(s, link, rest), e.sameRadio, e.packet) then SeenSince(s, link, rest) + 1
      else SeenSince(s, link, rest)
  }

  function Accounted(stats: Statistics): u64 {
    (stats.ignoredFrames + stats.requestsReceived + stats.responsesReceived) % U64_MODULUS
  }

  /** Every packet seen is counted as ignored, as a request or as a response, and nothing else is. */
  lemma {:induction false} SeenPacketsAreCounted(s: ClockState, link: Link, events: seq<ClockEvent>)
    requires s.stats == NO_STATISTICS
    ensures Accounted(After(s, link, events).stats) == SeenSince(s, link, events) % U64_MODULUS
  {
    if events == [] {
      NothingAccounted(s.stats);
    } else {
      var rest, e := events[..|events| - 1], events[|events| - 1];
      SeenPacketsAreCounted(s, link, rest);
      CallAccounts(After(s, link, rest), link, e);
      CountOf(SeenSince(s, link, rest));
    }
  }

  lemma NothingAccounted(stats: Statistics)
    requires stats == NO_STATISTICS
    ensures Accounted(stats) == 0 % U64_MODULUS == 0
  {
  }

  lemma CountOf(n: nat)
    ensures Count(n % U64_MODULUS) == (n + 1) % U64_MODULUS
  {
  }

  lemma CallAccounts(s: ClockState, link: Link, e: ClockEvent)
    ensures var after := Accounted(Next(s, link, e).stats);
            if e.ResetStatisticsCall? then after == 0
            else if e.PacketCall? && Seen(s, e.sameRadio, e.packet) then after == Count(Accounted(s.stats))
            else after == Accounted(s.stats)
  {
    if e.PacketCall? {
      PacketAccounts(s.stats, e.packet.receiveTimestamp, e.good);
    } else if !e.ResetStatisticsCall? {
      RequestAccounts(s.stats, true);
      RequestAccounts(s.stats, false);
    }
  }

  lemma PacketAccounts(stats: Statistics, received: u64, good: bool)
    ensures Accounted(CountIgnored(stats)) == Count(Accounted(stats))
    ensures Accounted(CountAnswer(stats, received, good)) == Count(Accounted(stats))
    ensures Accounted(CountSample(stats, received, good)) == Count(Accounted(stats))
  {
    var total := stats.ignoredFrames + stats.requestsReceived + stats.responsesReceived;
    OneMore(total, stats.ignoredFrames);
    OneMore(total, stats.requestsReceived);
    OneMore(total, stats.responsesReceived);
  }

  lemma RequestAccounts(stats: Statistics, taken: bool)
    ensures Accounted(CountRequest(stats, taken)) == Accounted(stats)
  {
  }

  lemma OneMore(total: int, x: u64)
    ensures (total - x + Count(x)) % U64_MODULUS == Count(total % U64_MODULUS)
  {
  }

  // ----- receive timestamps that are required are there -----

  lemma RequiredTimestampIsUsed(s: ClockState, link: Link, e: ClockEvent)
    requires s.config.requireReceiveTimestamp && !e.InitializeCall? && !e.ResetStatisticsCall?
    ensures Next(s, link, e).config == s.config
    ensures Next(s, link, e).stats.timestampFallbacks == s.stats.timestampFallbacks
  {
  }

  /** With RequireReceiveTimestamp nothing is ever timed by the fallback, as long as the configuration stays. */
  lemma {:induction false} RequiredTimestampsAreUsed(s: ClockState, link: Link, events: seq<ClockEvent>)
    requires s.config.requireReceiveTimestamp
    requires forall e :: e in events ==> !e.InitializeCall? && !e.ResetStatisticsCall?
    ensures After(s, link, events).config == s.config
    ensures After(s, link, events).stats.timestampFallbacks == s.stats.timestampFallbacks
  {
    if events != [] {
      var rest, e := events[..|events| - 1], events[|events| - 1];
      assert e in events && forall x :: x in rest ==> x in events;
      RequiredTimestampsAreUsed(s, link, rest);
      RequiredTimestampIsUsed(After(s, link, rest), link, e);
    }
  }
}
