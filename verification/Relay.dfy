/** A chain of forwarding nodes: what the last one hands over is what was sent, once, each hop costing one. */
module Relay {
  import opened RadioTypes
  import opened TransportWire
  import opened Reassembly
  import opened ReassemblyRuns
  import opened Delivery
  import opened Deliverability

  /** A node and the chunk size of the link into it. */
  datatype Link = Link(local: u16, chunk: u8)

  /** What a node did with the messages completed in a run, in order. */
  function Disposals(local: u16, outs: seq<Outcome>): seq<Disposal> {
    if outs == [] then []
    else
      var last := |outs| - 1;
      Disposals(local, outs[..last]) +
        if Dispose(local, outs[last]).Discard? then [] else [Dispose(local, outs[last])]
  }

  /** The frames a node sends over a link for the messages it passes on; one too large for the link is refused. */
  function Onwards(disposals: seq<Disposal>, chunk: u8): seq<bytes> {
    if disposals == [] then []
    else
      var last := |disposals| - 1;
      var d := disposals[last];
      Onwards(disposals[..last], chunk) +
        if d.Forward? && Sendable(|d.message.payload|, chunk)
        then Frames(d.message.id, d.message.payload, chunk, d.hop) else []
  }

  /** Node `k`, fresh, receives what its predecessor sends on. */
  ghost predicate FedByPredecessor(path: seq<Link>, runs: seq<Run>, k: nat)
    requires 0 < k < |path| == |runs|
  {
    Feeds(runs[k], path[k].local, EMPTY_TABLE, Onwards(Disposals(path[k - 1].local, runs[k - 1].outs), path[k].chunk))
  }

  /** Fresh nodes in a row: the first receives the frames of a message, each next one what its predecessor sends on. */
  ghost predicate Chain(path: seq<Link>, runs: seq<Run>, id: Identity, p: bytes, hop: u8) {
    && 0 < |path| == |runs| && Sendable(|p|, path[0].chunk)
    && Feeds(runs[0], path[0].local, EMPTY_TABLE, Frames(id, p, path[0].chunk, hop))
    && forall k: nat | 0 < k < |path| :: FedByPredecessor(path, runs, k)
  }

  /** A path along which the message can travel: storable on every link, and only its last node is the destination. */
  ghost predicate Passable(path: seq<Link>, id: Identity, p: bytes) {
    && id.source != 0 && id.destination !in {0, BROADCAST_NODE}
    && forall k {:trigger path[k]} :: 0 <= k < |path| ==>
         && Sendable(|p|, path[k].chunk) && Storable(|p|, path[k].chunk)
         && path[k].local != id.source
         && (path[k].local == id.destination <==> k == |path| - 1)
  }

  lemma {:induction false} OnlyLastDisposed(local: u16, outs: seq<Outcome>)
    requires outs != [] && forall i | 0 <= i < |outs| - 1 :: outs[i] == Nothing
    ensures var d := Dispose(local, outs[|outs| - 1]); Disposals(local, outs) == if d.Discard? then [] else [d]
  {
    NothingDisposed(local, outs[..|outs| - 1]);
  }

  lemma {:induction false} NothingDisposed(local: u16, outs: seq<Outcome>)
    requires forall i | 0 <= i < |outs| :: outs[i] == Nothing
    ensures Disposals(local, outs) == []
  {
    if outs != [] {
      NothingDisposed(local, outs[..|outs| - 1]);
    }
  }

  /** Among what a node completed there was one message to dispose of, `m`, with this hop limit left. */
  ghost predicate DisposesOf(local: u16, outs: seq<Outcome>, m: Message, left: u8) {
    var d := Dispose(local, Completed(m, left));
    Disposals(local, outs) == if d.Discard? then [] else [d]
  }

  /** One fresh node that is fed a message's frames disposes of exactly that message. */
  lemma HopDisposes(r: Run, link: Link, id: Identity, p: bytes, hop: u8, frames: seq<bytes>)
    requires Sendable(|p|, link.chunk) && Storable(|p|, link.chunk)
    requires id.source !in {0, link.local} && id.destination != 0
    ensures Feeds(r, link.local, EMPTY_TABLE, frames) && frames == Frames(id, p, link.chunk, hop) ==>
              DisposesOf(link.local, r.outs, Message(id, p), hop)
  {
    if Feeds(r, link.local, EMPTY_TABLE, frames) && frames == Frames(id, p, link.chunk, hop) {
      InOrderCompletesLast(r, Shipment(id, p, link.chunk, {hop}), hop);
      OnlyLastDisposed(link.local, r.outs);
    }
  }

  lemma OnwardOne(m: Message, hop: u8, chunk: u8)
    requires Sendable(|m.payload|, chunk)
    ensures Onwards([Forward(m, hop)], chunk) == Frames(m.id, m.payload, chunk, hop)
  {
    var one := [Forward(m, hop)];
    assert |one[..0]| == 0;
  }

  /** A node whose predecessor passes one message on disposes of that message. */
  lemma NextDisposes(path: seq<Link>, runs: seq<Run>, id: Identity, p: bytes, left: u8, k: nat)
    requires 0 < k < |path| == |runs| && FedByPredecessor(path, runs, k)
    requires Sendable(|p|, path[k].chunk) && Storable(|p|, path[k].chunk)
    requires id.source !in {0, path[k].local} && id.destination !in {0, BROADCAST_NODE, path[k - 1].local} && left < 255
    requires DisposesOf(path[k - 1].local, runs[k - 1].outs, Message(id, p), left + 1)
    ensures DisposesOf(path[k].local, runs[k].outs, Message(id, p), left)
  {
    OnwardOne(Message(id, p), left, path[k].chunk);
    HopDisposes(runs[k], path[k], id, p, left, Frames(id, p, path[k].chunk, left));
  }

  /** Node `k` of the chain disposes of exactly one message, the original with its hop limit lowered `k` times. */
  lemma {:induction false} NodeDisposes(path: seq<Link>, runs: seq<Run>, id: Identity, p: bytes, hop: u8, k: nat)
    requires Chain(path, runs, id, p, hop) && Passable(path, id, p) && k < |path| && k <= hop
    ensures DisposesOf(path[k].local, runs[k].outs, Message(id, p), hop - k)
  {
    var link, left := path[k], hop - k;
    if k == 0 {
      HopDisposes(runs[0], link, id, p, hop, Frames(id, p, link.chunk, hop));
    } else {
      NodeDisposes(path, runs, id, p, hop, k - 1);
      assert path[k - 1].local != id.destination && FedByPredecessor(path, runs, k);
      NextDisposes(path, runs, id, p, left, k);
    }
  }

  /**
    Across any number of links, each with its own chunk size, up to one more than the hop limit: every node but the
    last passes the message on once with the hop limit one lower, and the last hands over the original once.
   */
  lemma ChainDelivers(path: seq<Link>, runs: seq<Run>, id: Identity, p: bytes, hop: u8, k: nat)
    requires Chain(path, runs, id, p, hop) && Passable(path, id, p) && k < |path| && |path| - 1 <= hop
    ensures Disposals(path[k].local, runs[k].outs) ==
            if k == |path| - 1 then [Deliver(Message(id, p))] else [Forward(Message(id, p), hop - k - 1)]
  {
    NodeDisposes(path, runs, id, p, hop, k);
    var left := hop - k;
    assert k < |path| - 1 ==> path[k].local != id.destination && 0 < left;
  }

  /** Every path with sendable chunks has such a chain of runs. */
  lemma {:induction false} ChainExists(path: seq<Link>, id: Identity, p: bytes, hop: u8) returns (runs: seq<Run>)
    requires 0 < |path| && Sendable(|p|, path[0].chunk)
    ensures Chain(path, runs, id, p, hop)
  {
    EmptyIsValid();
    var last := |path| - 1;
    if last == 0 {
      var r := RunExists(path[0].local, EMPTY_TABLE, Frames(id, p, path[0].chunk, hop));
      runs := [r];
    } else {
      var before := ChainExists(path[..last], id, p, hop);
      var fed := Onwards(Disposals(path[last - 1].local, before[last - 1].outs), path[last].chunk);
      var r := RunExists(path[last].local, EMPTY_TABLE, fed);
      runs := before + [r];
      forall k: nat | 0 < k < |path| ensures FedByPredecessor(path, runs, k) {
        if k < last {
          assert FedByPredecessor(path[..last], before, k);
        }
      }
    }
  }

  predicate NoneForwarded(disposals: seq<Disposal>) {
    forall d | d in disposals :: !d.Forward?
  }

  /** A node whose predecessor passes nothing on receives nothing and disposes of nothing. */
  lemma NothingReaches(path: seq<Link>, runs: seq<Run>, k: nat)
    requires 0 < k < |path| == |runs| && FedByPredecessor(path, runs, k)
    requires NoneForwarded(Disposals(path[k - 1].local, runs[k - 1].outs))
    ensures runs[k].events == [] && Disposals(path[k].local, runs[k].outs) == []
  {
    NothingOnwards(Disposals(path[k - 1].local, runs[k - 1].outs), path[k].chunk);
  }

  lemma {:induction false} NothingOnwards(disposals: seq<Disposal>, chunk: u8)
    requires NoneForwarded(disposals)
    ensures Onwards(disposals, chunk) == []
  {
    if disposals != [] {
      NothingOnwards(disposals[..|disposals| - 1], chunk);
    }
  }

  /** No message is passed on with no hop left. */
  lemma LastHopForwardsNothing(local: u16, outs: seq<Outcome>, m: Message)
    requires DisposesOf(local, outs, m, 0)
    ensures NoneForwarded(Disposals(local, outs))
  {
  }

  /** Behind a node that passes nothing on, nothing reaches any node. */
  lemma {:induction false} NothingBehind(path: seq<Link>, runs: seq<Run>, from: nat, k: nat)
    requires from < k < |path| == |runs| && forall j | from < j <= k :: FedByPredecessor(path, runs, j)
    requires NoneForwarded(Disposals(path[from].local, runs[from].outs))
    ensures runs[k].events == [] && Disposals(path[k].local, runs[k].outs) == []
  {
    if k - 1 != from {
      NothingBehind(path, runs, from, k - 1);
    }
    NothingReaches(path, runs, k);
  }

  /** Beyond the hop limit nothing reaches any node. */
  lemma ChainExhaustsHops(path: seq<Link>, runs: seq<Run>, id: Identity, p: bytes, hop: u8, k: nat)
    requires Chain(path, runs, id, p, hop) && Passable(path, id, p) && hop < k < |path|
    ensures runs[k].events == [] && Disposals(path[k].local, runs[k].outs) == []
  {
    NodeDisposes(path, runs, id, p, hop, hop);
    LastHopForwardsNothing(path[hop].local, runs[hop].outs, Message(id, p));
    NothingBehind(path, runs, hop, k);
  }
}
