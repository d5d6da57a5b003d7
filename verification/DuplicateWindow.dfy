/** For how long a node suppresses duplicates: exactly when the ring's promise holds in every run it can make. */
module DuplicateWindow {
  import opened Arithmetic
  import opened RadioTypes
  import opened TransportWire
  import opened RecentRing
  import opened Reassembly
  import opened ReassemblyRuns
  import opened Deliverability

  // ----- the identities a node can complete -----

  predicate Completable(id: Identity, local: u16) {
    id.source !in {0, local} && id.destination != 0
  }

  // Destinations other than 0, times channels, times message ids.
  const IDENTITIES_PER_SOURCE := 0xFFFF * 0x100 * 0x1_0000

  function IdentityCount(local: u16): nat {
    (if local == 0 then 0xFFFF else 0xFFFE) * IDENTITIES_PER_SOURCE
  }

  /** The position of a source among those that are neither 0 nor the node itself. */
  function Rank(source: u16, local: u16): (k: nat)
    requires source !in {0, local}
    ensures k < if local == 0 then 0xFFFF else 0xFFFE
  {
    if 0 < local < source then source - 2 else source - 1
  }

  /** The position of an identity among those the node can complete. */
  function IndexOf(id: Identity, local: u16): (k: nat)
    requires Completable(id, local)
    ensures k < IdentityCount(local)
  {
    ((Rank(id.source, local) * 0xFFFF + (id.destination - 1)) * 0x100 + id.channel) * 0x1_0000 + id.messageId
  }

  lemma Split(q: nat, r: nat, n: Positive)
    requires r < n
    ensures (q * n + r) / n == q && (q * n + r) % n == r
  {
    assert (q + 1) * n == q * n + n;
    QuotientIs(q * n + r, q, n);
  }

  lemma IndexOfIsInjective(x: Identity, y: Identity, local: u16)
    requires Completable(x, local) && Completable(y, local) && IndexOf(x, local) == IndexOf(y, local)
    ensures x == y
  {
    var sx, sy := Rank(x.source, local), Rank(y.source, local);
    var dx, dy := sx * 0xFFFF + (x.destination - 1), sy * 0xFFFF + (y.destination - 1);
    Split(dx * 0x100 + x.channel, x.messageId, 0x1_0000);
    Split(dy * 0x100 + y.channel, y.messageId, 0x1_0000);
    Split(dx, x.channel, 0x100);
    Split(dy, y.channel, 0x100);
    Split(sx, x.destination - 1, 0xFFFF);
    Split(sy, y.destination - 1, 0xFFFF);
  }

  function IdentityAt(k: nat, local: u16): (id: Identity)
    requires k < IdentityCount(local)
    ensures Completable(id, local) && IndexOf(id, local) == k
  {
    var word := k / 0x1_0000;
    var pair := word / 0x100;
    var rank := pair / 0xFFFF;
    Identity(if 0 < local <= rank + 1 then rank + 2 else rank + 1, pair % 0xFFFF + 1, word % 0x100, k % 0x1_0000)
  }

  function FirstIdentities(count: nat, local: u16): set<Identity>
    requires count <= IdentityCount(local)
  {
    if count == 0 then {} else FirstIdentities(count - 1, local) + {IdentityAt(count - 1, local)}
  }

  lemma {:induction false} InFirst(id: Identity, count: nat, local: u16)
    requires count <= IdentityCount(local)
    ensures id in FirstIdentities(count, local) <==> Completable(id, local) && IndexOf(id, local) < count
  {
    if count != 0 {
      InFirst(id, count - 1, local);
      if Completable(id, local) && IndexOf(id, local) == count - 1 {
        IndexOfIsInjective(id, IdentityAt(count - 1, local), local);
      }
    }
  }

  lemma NextIsNew(count: nat, local: u16)
    requires count < IdentityCount(local)
    ensures IdentityAt(count, local) !in FirstIdentities(count, local)
  {
    var next := IdentityAt(count, local);
    InFirst(next, count, local);
  }

  lemma {:induction false} FirstIdentitiesCount(count: nat, local: u16)
    requires count <= IdentityCount(local)
    ensures |FirstIdentities(count, local)| == count
  {
    if count != 0 {
      var rest := count - 1;
      FirstIdentitiesCount(rest, local);
      NextIsNew(rest, local);
      assert FirstIdentities(count, local) == FirstIdentities(rest, local) + {IdentityAt(rest, local)};
    }
  }

  function Identities(local: u16): set<Identity> {
    FirstIdentities(IdentityCount(local), local)
  }

  lemma IdentitiesAre(local: u16, log: seq<Identity>)
    ensures |Identities(local)| == IdentityCount(local)
    ensures Over(log, Identities(local)) <==> forall id | id in log :: Completable(id, local)
  {
    FirstIdentitiesCount(IdentityCount(local), local);
    forall id | id in log ensures id in Identities(local) <==> Completable(id, local) {
      InFirst(id, IdentityCount(local), local);
    }
  }

  // ----- a run for every log -----

  /** The frame of a message without content. */
  function Single(id: Identity): bytes {
    Frame(Fragment(id, 0, 1, 1, 0, []))
  }

  function Singles(log: seq<Identity>): (frames: seq<bytes>)
    ensures |frames| == |log|
  {
    seq(|log|, (i: nat) requires i < |log| => Single(log[i]))
  }

  lemma SingleCompletes(t: Table, local: u16, t': Table, out: Outcome, id: Identity)
    requires Valid(t) && Arrival(t, local, Single(id), t', out)
    requires t.assemblies == map[] && Completable(id, local) && !Recent(t, id) && 0 < MAX_MESSAGE_BYTES
    ensures t'.assemblies == map[] && t'.completed == t.completed + [id] && Completes(out, id)
  {
    var f := Fragment(id, 0, 1, 1, 0, []);
    ParseFrame(f);
    var victim :| MayEvict(t, victim) && Receive(t, local, Single(id), victim) == (t', out);
    assert SlotFor(t, f) == Some((Fresh(f, NextTouch(t.touch)), NextTouch(t.touch)));
    assert |Stored(Fresh(f, NextTouch(t.touch)), f, NextTouch(NextTouch(t.touch))).parts| == 1;
  }

  lemma SinglesStep(r: Run, log: seq<Identity>, i: nat)
    requires r.Steps() && i < |r.events| && i < |log| && r.events[i] == Packet(Single(log[i])) && 0 < MAX_MESSAGE_BYTES
    requires r.tables[i].assemblies == map[] && r.tables[i].completed == log[..i]
    requires Completable(log[i], r.local) && !Recent(r.tables[i], log[i])
    ensures r.tables[i + 1].assemblies == map[] && r.tables[i + 1].completed == log[..i + 1]
    ensures Completes(r.outs[i], log[i])
  {
    assert Step(r.tables[i], r.local, r.events[i], r.tables[i + 1], r.outs[i]);
    assert log[..i + 1] == log[..i] + [log[i]];
    SingleCompletes(r.tables[i], r.local, r.tables[i + 1], r.outs[i], log[i]);
  }

  /** Fed one message without content after another, a node completes them one after another. */
  lemma {:induction false} SinglesComplete(r: Run, log: seq<Identity>, i: nat)
    requires Feeds(r, r.local, EMPTY_TABLE, Singles(log)) && i <= |log| && 0 < MAX_MESSAGE_BYTES
    requires Admissible(log, MAX_RECENT_MESSAGES, SIZE_MODULUS) && forall id | id in log :: Completable(id, r.local)
    ensures r.tables[i].assemblies == map[] && r.tables[i].completed == log[..i]
    ensures i < |log| ==> Completes(r.outs[i], log[i])
  {
    if i != 0 {
      SinglesComplete(r, log, i - 1);
      SinglesStep(r, log, i - 1);
    }
    if i < |log| {
      SinglesStep(r, log, i);
    }
  }

  // ----- what a run completes -----

  lemma {:induction false} CompletedAreCompletable(r: Run, i: nat)
    requires r.Steps() && r.tables[0] == EMPTY_TABLE && i <= |r.events|
    ensures forall id | id in r.tables[i].completed :: Completable(id, r.local)
    ensures MAX_MESSAGE_BYTES == 0 ==> r.tables[i].completed == []
  {
    if i != 0 {
      CompletedAreCompletable(r, i - 1);
      StepCompletes(r.tables[i - 1], r.local, r.events[i - 1], r.tables[i], r.outs[i - 1]);
      CompletionIsCompletable(r.tables[i - 1], r.local, r.events[i - 1], r.tables[i], r.outs[i - 1]);
    }
  }

  lemma CompletionIsCompletable(t: Table, local: u16, e: Event, t': Table, out: Outcome)
    requires Step(t, local, e, t', out)
    ensures out.Completed? ==> Completable(out.message.id, local) && 0 < MAX_MESSAGE_BYTES
  {
    if e.Packet? {
      var victim :| MayEvict(t, victim) && Receive(t, local, e.data, victim) == (t', out);
      CompletionFits(t, local, e.data, victim);
      var r := Parse(e.data);
      if r.Some? && Admits(t, local, r.value) && SlotFor(t, r.value).Some? {
        var a := SlotFor(t, r.value).value.0;
        if a.count == r.value.count && a.chunk == r.value.chunk {
          MulMono(1, a.count, a.chunk);
        }
      }
    }
  }

  // ----- the promise over all runs -----

  ghost predicate FreshRun(r: Run, local: u16) {
    r.Steps() && r.local == local && r.tables[0] == EMPTY_TABLE
  }

  /** Two completions of one message have at least MAX_RECENT_MESSAGES others between them. */
  ghost predicate KeepsApart(r: Run)
    requires r.Steps()
  {
    forall i, j | 0 <= i < j < |r.outs| && r.outs[i].Completed? && Completes(r.outs[j], r.outs[i].message.id) ::
      MAX_RECENT_MESSAGES < |r.tables[j].completed| - |r.tables[i].completed|
  }

  /** The ring's size divides the cursor's modulus, nothing can be completed, or there are too few identities. */
  predicate RingSuffices(local: u16) {
    || SIZE_MODULUS % MAX_RECENT_MESSAGES == 0
    || MAX_MESSAGE_BYTES == 0
    || IdentityCount(local) <= Min(MAX_RECENT_MESSAGES, SIZE_MODULUS)
  }

  lemma RunLogKeepsWindow(r: Run, local: u16)
    requires FreshRun(r, local) && RingSuffices(local)
    ensures Spaced(r.tables[|r.events|].completed, MAX_RECENT_MESSAGES)
  {
    CompletedAreCompletable(r, |r.events|);
    RunKeepsValid(r, |r.events|);
    IdentitiesAre(local, r.tables[|r.events|].completed);
    if MAX_MESSAGE_BYTES != 0 {
      LogKeepsWindow(r.tables[|r.events|].completed, Identities(local), MAX_RECENT_MESSAGES, SIZE_MODULUS);
    }
  }

  lemma PrefixIsSpaced<T>(log: seq<T>, later: seq<T>, n: nat)
    requires log <= later && Spaced(later, n)
    ensures Spaced(log, n)
  {
    assert forall i | 0 <= i < |log| :: log[i] == later[i];
  }

  lemma RunKeepsApart(r: Run, local: u16)
    requires FreshRun(r, local) && RingSuffices(local)
    ensures KeepsApart(r)
  {
    RunLogKeepsWindow(r, local);
    forall i, j | 0 <= i < j < |r.outs| && r.outs[i].Completed? && Completes(r.outs[j], r.outs[i].message.id)
      ensures MAX_RECENT_MESSAGES < |r.tables[j].completed| - |r.tables[i].completed|
    {
      CompletedGrows(r, j + 1, |r.events|);
      PrefixIsSpaced(r.tables[j + 1].completed, r.tables[|r.events|].completed, MAX_RECENT_MESSAGES);
      CompletionsApart(r, i, j, r.outs[i].message.id);
    }
  }

  lemma SomeRunRepeatsEarly(local: u16) returns (r: Run)
    requires !RingSuffices(local)
    ensures FreshRun(r, local) && !KeepsApart(r)
  {
    IdentitiesAre(local, []);
    var log := SomeLogBreaksWindow(Identities(local), MAX_RECENT_MESSAGES, SIZE_MODULUS);
    IdentitiesAre(local, log);
    EmptyIsValid();
    r := RunExists(local, EMPTY_TABLE, Singles(log));
    var i, j :| 0 <= i < j < |log| && log[i] == log[j] && j - i <= MAX_RECENT_MESSAGES;
    SinglesComplete(r, log, i);
    SinglesComplete(r, log, j);
  }

  /** Every run of a fresh node keeps repeated completions apart exactly if the ring suffices. */
  lemma RunsKeepApartIff(local: u16)
    ensures RingSuffices(local) <==> forall r: Run | FreshRun(r, local) :: KeepsApart(r)
  {
    if RingSuffices(local) {
      forall r: Run | FreshRun(r, local) ensures KeepsApart(r) {
        RunKeepsApart(r, local);
      }
    } else {
      var r := SomeRunRepeatsEarly(local);
    }
  }
}
