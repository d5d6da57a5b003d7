/** What the four timestamps of an exchange say about the offset between two clocks. */
module ClockOffset {
  import opened RadioTypes
  import opened ClockSteps

  /** A node's clocks: at instant `t` the synchronized one shows `t + system` and the monotonic one `t + monotonic`. */
  datatype Clocks = Clocks(system: int, monotonic: int)

  predicate Shows(clocks: Clocks, t: int) {
    0 <= t + clocks.system < U64_MODULUS && 0 < t + clocks.monotonic < U64_MODULUS
  }

  function SystemAt(clocks: Clocks, t: int): u64
    requires Shows(clocks, t)
  {
    t + clocks.system
  }

  function MonotonicAt(clocks: Clocks, t: int): u64
    requires Shows(clocks, t)
  {
    t + clocks.monotonic
  }

  /**
    A packet's arrival at a node: at `arrived` on the air, with a receive timestamp or without; the synchronizer gets to
    read the system clock at `read`, and the monotonic one `gap` later.
   */
  datatype Arrival = Arrival(arrived: int, stamped: bool, read: int, gap: nat)

  predicate Possible(clocks: Clocks, a: Arrival) {
    a.arrived <= a.read && Shows(clocks, a.arrived) && Shows(clocks, a.read) && Shows(clocks, a.read + a.gap)
  }

  /** The arrival time the synchronizer recovers. */
  function RecoveredAt(clocks: Clocks, a: Arrival): u64
    requires Possible(clocks, a)
  {
    Recovered(if a.stamped then MonotonicAt(clocks, a.arrived) else 0,
              SystemAt(clocks, a.read), MonotonicAt(clocks, a.read + a.gap))
  }

  /** How late the recovered time is allowed to be: the queueing before `read`, if there is no timestamp to undo it. */
  function Lateness(a: Arrival): int {
    if a.stamped then -(a.gap as int) else a.read - a.arrived
  }

  predicate Saturates(clocks: Clocks, a: Arrival)
    requires Possible(clocks, a)
  {
    a.stamped && SystemAt(clocks, a.arrived) < a.gap
  }

  /**
    The recovered time is the arrival time less the gap between the two clock reads, however long the packet was queued;
    it is later than that only if the packet carried no timestamp or the subtraction saturated at zero.
   */
  lemma RecoveredIs(clocks: Clocks, a: Arrival)
    requires Possible(clocks, a)
    ensures RecoveredAt(clocks, a) ==
              if Saturates(clocks, a) then 0 else SystemAt(clocks, a.arrived) + Lateness(a)
    ensures RecoveredAt(clocks, a) >= SystemAt(clocks, a.arrived) - a.gap
  {
  }

  /**
    An exchange: the client reads T1 at `requested`, the request arrives, the reference reads T3 at `answered`, the
    response arrives.
   */
  datatype Exchange = Exchange(requested: int, request: Arrival, answered: int, response: Arrival)

  predicate Happens(client: Clocks, reference: Clocks, x: Exchange) {
    && Shows(client, x.requested) && Shows(reference, x.answered)
    && Possible(reference, x.request) && Possible(client, x.response)
    && x.requested <= x.request.arrived && x.answered <= x.response.arrived
  }

  function Measured(client: Clocks, reference: Clocks, x: Exchange): Sample
    requires Happens(client, reference, x)
  {
    Sample(SystemAt(client, x.requested), RecoveredAt(reference, x.request),
           SystemAt(reference, x.answered), RecoveredAt(client, x.response))
  }

  /**
    The true offset lies between T3 - T4 - g4 and T2 - T1 + g2, where g2 and g4 are the gaps between the two clock reads
    at either end. This needs neither timestamps nor that no subtraction saturates.
   */
  lemma OffsetBracket(client: Clocks, reference: Clocks, x: Exchange)
    requires Happens(client, reference, x)
    ensures var m := Measured(client, reference, x);
            m.t3 - m.t4 - x.response.gap <= reference.system - client.system <= m.t2 - m.t1 + x.request.gap
  {
    RecoveredIs(reference, x.request);
    RecoveredIs(client, x.response);
  }

  /**
    How tight that is. The upper bound exceeds the offset by the request's time on the air and no more exactly if its
    arrival was stamped without saturating, or unstamped but read at once; likewise below. Queueing cancels.
   */
  lemma BracketWidth(client: Clocks, reference: Clocks, x: Exchange)
    requires Happens(client, reference, x)
    ensures var m, offset := Measured(client, reference, x), reference.system - client.system;
            && (m.t2 - m.t1 + x.request.gap - offset == x.request.arrived - x.requested
                <==> Undistorted(reference, x.request))
            && (offset - (m.t3 - m.t4 - x.response.gap) == x.response.arrived - x.answered
                <==> Undistorted(client, x.response))
  {
    RecoveredIs(reference, x.request);
    RecoveredIs(client, x.response);
  }

  predicate Undistorted(clocks: Clocks, a: Arrival)
    requires Possible(clocks, a)
  {
    if a.stamped then !Saturates(clocks, a) else a.read + a.gap == a.arrived
  }
}
