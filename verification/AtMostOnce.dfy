/** How often one message is handed to the receiver of a node, over whole runs of a network. */
module AtMostOnce {
  import opened Arithmetic
  import opened RadioTypes
  import opened TransportWire
  import opened RecentRing
  import opened Reassembly
  import opened Network
  import ReassemblyRuns

  /** A step that hands a message `id` to the receiver at `v`. */
  ghost predicate Delivers(n: Network, n': Network, v: u16, id: Identity) {
    exists m: Message :: m.id == id && n'.delivered == n.delivered + [Arrived(v, m)]
  }

  lemma StepDelivers(n: Network, step: Step, n': Network, v: u16, id: Identity)
    requires NetStep(n, step, n') && Delivers(n, n', v, id)
    ensures v in n.nodes && v in n'.nodes && !Recent(n.nodes[v].table, id)
    ensures n'.nodes[v].table.completed == n.nodes[v].table.completed + [id] && Valid(n'.nodes[v].table)
  {
    assert step.Receive? && n'.delivered[|n.delivered|].node == v && n'.delivered[|n.delivered|].message.id == id;
    CompletionFits(n.nodes[v].table, v, n.air[step.k], step.victim);
    ReceiveKeepsValid(n.nodes[v].table, v, n.air[step.k], step.victim);
  }

  lemma StepLogGrows(n: Network, step: Step, n': Network, v: u16)
    requires NetStep(n, step, n') && v in n.nodes
    ensures v in n'.nodes && n.nodes[v].table.completed <= n'.nodes[v].table.completed
  {
    if step.Receive? && step.node == v {
      CompletionFits(n.nodes[v].table, v, n.air[step.k], step.victim);
    }
  }

  lemma {:induction false} LogGrows(nets: seq<Network>, steps: seq<Step>, v: u16, i: nat, j: nat)
    requires NetRun(nets, steps) && i <= j <= |steps| && v in nets[i].nodes
    ensures v in nets[j].nodes && nets[i].nodes[v].table.completed <= nets[j].nodes[v].table.completed
    decreases j
  {
    if i < j {
      LogGrows(nets, steps, v, i, j - 1);
      StepLogGrows(nets[j - 1], steps[j - 1], nets[j], v);
    }
  }

  lemma RunDelivers(nets: seq<Network>, steps: seq<Step>, v: u16, id: Identity, i: nat)
    requires NetRun(nets, steps) && i < |steps| && Delivers(nets[i], nets[i + 1], v, id)
    ensures v in nets[i].nodes && v in nets[i + 1].nodes && Valid(nets[i + 1].nodes[v].table)
    ensures nets[i + 1].nodes[v].table.completed == nets[i].nodes[v].table.completed + [id]
  {
    StepDelivers(nets[i], steps[i], nets[i + 1], v, id);
  }

  /** A log that the ring allows has more than its size of entries from one of `id` to the next. */
  lemma LogGap(log: seq<Identity>, later: seq<Identity>, id: Identity)
    requires log + [id] <= later && Admissible(later + [id], MAX_RECENT_MESSAGES, SIZE_MODULUS)
    ensures CursorSound(|later| + 1, MAX_RECENT_MESSAGES, SIZE_MODULUS) ==> MAX_RECENT_MESSAGES < |later| - |log|
  {
    if CursorSound(|later + [id]|, MAX_RECENT_MESSAGES, SIZE_MODULUS) {
      AdmissibleIsSpaced(later + [id], MAX_RECENT_MESSAGES, SIZE_MODULUS);
      ReassemblyRuns.SpacedGap(log, later, id, MAX_RECENT_MESSAGES);
    }
  }

  /**
    In every run of a network, between two hand-overs of one message at one node that node completes at least
    MAX_RECENT_MESSAGES others.
   */
  lemma DeliveredOncePerWindow(nets: seq<Network>, steps: seq<Step>, v: u16, id: Identity, i: nat, j: nat)
    requires NetRun(nets, steps) && i < j < |steps|
    requires Delivers(nets[i], nets[i + 1], v, id) && Delivers(nets[j], nets[j + 1], v, id)
    ensures v in nets[i].nodes && v in nets[j].nodes && v in nets[j + 1].nodes
    ensures CursorSound(|nets[j + 1].nodes[v].table.completed|, MAX_RECENT_MESSAGES, SIZE_MODULUS) ==>
              MAX_RECENT_MESSAGES < |nets[j].nodes[v].table.completed| - |nets[i].nodes[v].table.completed|
  {
    RunDelivers(nets, steps, v, id, i);
    RunDelivers(nets, steps, v, id, j);
    LogGrows(nets, steps, v, i + 1, j);
    LogGap(nets[i].nodes[v].table.completed, nets[j].nodes[v].table.completed, id);
  }

  // ----- while the rings forget nothing, every message is handed over at most once at every node -----

  ghost predicate NothingForgotten(n: Network) {
    forall v :: v in n.nodes ==> |n.nodes[v].table.completed| <= Min(MAX_RECENT_MESSAGES, SIZE_MODULUS)
  }

  ghost predicate OnceEach(delivered: seq<Arrived>) {
    forall i, j | 0 <= i < j < |delivered| && delivered[i].node == delivered[j].node ::
      delivered[i].message.id != delivered[j].message.id
  }

  ghost predicate DeliveriesLogged(n: Network) {
    forall d :: d in n.delivered ==> d.node in n.nodes && d.message.id in n.nodes[d.node].table.completed
  }

  lemma RecentIsLogged(t: Table, id: Identity)
    requires |t.completed| <= Min(MAX_RECENT_MESSAGES, SIZE_MODULUS)
    ensures Recent(t, id) <==> id in t.completed
  {
    HoldsExactlyWindow(t.completed, MAX_RECENT_MESSAGES, SIZE_MODULUS, id);
  }

  lemma StepKeepsDeliveriesLogged(n: Network, step: Step, n': Network)
    requires NetStep(n, step, n') && DeliveriesLogged(n)
    ensures DeliveriesLogged(n')
  {
    forall d | d in n'.delivered ensures d.node in n'.nodes && d.message.id in n'.nodes[d.node].table.completed {
      if d in n.delivered {
        StepLogGrows(n, step, n', d.node);
      } else {
        assert Delivers(n, n', d.node, d.message.id);
        StepDelivers(n, step, n', d.node, d.message.id);
      }
    }
  }

  lemma OnceEachAppend(delivered: seq<Arrived>, d: Arrived)
    requires OnceEach(delivered) && forall x | x in delivered && x.node == d.node :: x.message.id != d.message.id
    ensures OnceEach(delivered + [d])
  {
  }

  lemma StepDeliversNew(n: Network, step: Step, n': Network)
    requires NetStep(n, step, n') && DeliveriesLogged(n) && NothingForgotten(n) && OnceEach(n.delivered)
    ensures OnceEach(n'.delivered)
  {
    if n'.delivered != n.delivered {
      var d := n'.delivered[|n.delivered|];
      assert n'.delivered == n.delivered + [d];
      assert Delivers(n, n', d.node, d.message.id);
      StepDelivers(n, step, n', d.node, d.message.id);
      RecentIsLogged(n.nodes[d.node].table, d.message.id);
      OnceEachAppend(n.delivered, d);
    }
  }

  lemma StepForgetsNothingLess(n: Network, step: Step, n': Network)
    requires NetStep(n, step, n') && NothingForgotten(n')
    ensures NothingForgotten(n)
  {
    forall v | v in n.nodes ensures |n.nodes[v].table.completed| <= Min(MAX_RECENT_MESSAGES, SIZE_MODULUS) {
      StepLogGrows(n, step, n', v);
    }
  }

  lemma {:induction false} DeliveredOnce(nets: seq<Network>, steps: seq<Step>, i: nat)
    requires NetRun(nets, steps) && i <= |steps| && NothingForgotten(nets[i])
    ensures DeliveriesLogged(nets[i]) && OnceEach(nets[i].delivered)
  {
    if i != 0 {
      assert NetStep(nets[i - 1], steps[i - 1], nets[i]);
      StepForgetsNothingLess(nets[i - 1], steps[i - 1], nets[i]);
      DeliveredOnce(nets, steps, i - 1);
      StepKeepsDeliveriesLogged(nets[i - 1], steps[i - 1], nets[i]);
      StepDeliversNew(nets[i - 1], steps[i - 1], nets[i]);
    }
  }

  function IdsOf(sent: seq<Message>): set<Identity> {
    set i | 0 <= i < |sent| :: sent[i].id
  }

  lemma {:induction false} IdsOfCount(sent: seq<Message>)
    ensures |IdsOf(sent)| <= |sent|
  {
    if sent == [] {
      assert IdsOf(sent) == {};
    } else {
      var last := |sent| - 1;
      IdsOfCount(sent[..last]);
      assert IdsOf(sent) == IdsOf(sent[..last]) + {sent[last].id};
    }
  }

  /**
    While no more messages were sent in all than a ring holds, nobody gets a message twice, whatever the medium does.
   */
  lemma FewMessagesDeliveredOnce(nets: seq<Network>, steps: seq<Step>)
    requires NetRun(nets, steps) && FewSends(nets[|steps|])
    requires |nets[|steps|].sent| <= Min(MAX_RECENT_MESSAGES, SIZE_MODULUS)
    ensures OnceEach(nets[|steps|].delivered)
  {
    var n := nets[|steps|];
    RunIsCounted(nets, steps, |steps|);
    FewSendsAreUnique(n);
    RunIsLogged(nets, steps, |steps|);
    RunIsGenuine(nets, steps, |steps|);
    IdsOfCount(n.sent);
    forall v | v in n.nodes ensures |n.nodes[v].table.completed| <= Min(MAX_RECENT_MESSAGES, SIZE_MODULUS) {
      CompletedWereSent(n, v);
      FewValues(n.nodes[v].table.completed, IdsOf(n.sent), MAX_RECENT_MESSAGES, SIZE_MODULUS);
    }
    DeliveredOnce(nets, steps, |steps|);
  }

  lemma CompletedWereSent(n: Network, v: u16)
    requires v in n.nodes && Logged(n.nodes, n.completed) && GenuineLogs(n.sent, n.completed, n.delivered)
    ensures Over(n.nodes[v].table.completed, IdsOf(n.sent))
  {
    forall id | id in n.nodes[v].table.completed ensures id in IdsOf(n.sent) {
      assert Finished(n.completed, v, id);
      var c :| c in n.completed && c.node == v && c.message.id == id;
      var i :| 0 <= i < |n.sent| && n.sent[i] == c.message;
    }
  }
}
