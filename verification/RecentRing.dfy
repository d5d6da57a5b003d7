/** The ring of recently completed messages: `n` entries, written through a cursor that counts modulo `m`. */
module RecentRing {
  import opened Arithmetic
  import opened RadioTypes

  /** The ring after the entries of `log` were written, oldest first, from an empty ring. */
  function RingAfter<T>(log: seq<T>, n: Positive, m: Positive): (ring: seq<Option<T>>)
    ensures |ring| == n
  {
    if log == [] then seq(n, _ => None)
    else
      var rest := log[..|log| - 1];
      RingAfter(rest, n, m)[|rest| % m % n := Some(log[|rest|])]
  }

  predicate Holds<T(==)>(log: seq<T>, n: Positive, m: Positive, x: T) {
    Some(x) in RingAfter(log, n, m)
  }

  lemma RingAppend<T>(log: seq<T>, x: T, n: Positive, m: Positive)
    ensures RingAfter(log + [x], n, m) == RingAfter(log, n, m)[|log| % m % n := Some(x)]
  {
    assert (log + [x])[..|log|] == log;
  }

  lemma {:induction false} HeldWasWritten<T>(log: seq<T>, n: Positive, m: Positive, x: T)
    requires Holds(log, n, m, x)
    ensures x in log
  {
    if log != [] {
      var rest := log[..|log| - 1];
      if log[|rest|] != x {
        HeldWasWritten(rest, n, m, x);
      }
    }
  }

  /** Entries are only written when the ring does not hold them: what the transport does. */
  ghost predicate Admissible<T>(log: seq<T>, n: Positive, m: Positive) {
    forall j | 0 <= j < |log| :: !Holds(log[..j], n, m, log[j])
  }

  /** Between two equal entries there are at least `n` others. */
  ghost predicate Spaced<T>(log: seq<T>, n: nat) {
    forall i, j | 0 <= i < j < |log| && log[i] == log[j] :: n < j - i
  }

  /** The last `n` entries of a log. */
  function Window<T>(log: seq<T>, n: nat): seq<T> {
    if |log| <= n then log else log[|log| - n..]
  }

  // ----- the ring holds exactly the window, as long as the cursor's wrap does not disturb it -----

  ghost predicate CursorSound(entries: nat, n: Positive, m: Positive) {
    m % n == 0 || entries <= m
  }

  lemma CursorModN(t: nat, n: Positive, m: Positive)
    requires m % n == 0 || t < m
    ensures t % m % n == t % n
  {
    if t < m {
      QuotientIs(t, 0, m);
    } else {
      QuotientIs(t, t / m, m);
      QuotientIs(m, m / n, n);
      MultipleModN(t / m, m / n, t % m, n);
    }
  }

  lemma MultipleModN(a: nat, b: nat, r: nat, n: Positive)
    ensures (a * (b * n) + r) % n == r % n
  {
    var k, q := a * b, r / n;
    assert k * n == a * (b * n);
    QuotientIs(r, q, n);
    Distribute(k, q, n);
    QuotientIs(k * n + r, k + q, n);
  }

  lemma {:induction false} RingEntries<T>(log: seq<T>, n: Positive, m: Positive)
    requires CursorSound(|log|, n, m)
    ensures var ring := RingAfter(log, n, m);
            && (forall t | 0 <= t < |log| && |log| - n <= t :: ring[t % n] == Some(log[t]))
            && (forall j | |log| <= j < n :: ring[j] == None)
            && (forall j | 0 <= j < n && ring[j].Some? :: WrittenAt(|log|, n, j))
  {
    if log != [] {
      var last := |log| - 1;
      var rest, ring := log[..last], RingAfter(log, n, m);
      RingEntries(rest, n, m);
      CursorModN(last, n, m);
      forall t | 0 <= t < |log| && |log| - n <= t ensures ring[t % n] == Some(log[t]) {
        if t < last {
          DistinctModN(t, last, n);
        }
      }
      forall j | last < j < n ensures ring[j] == None {
        QuotientIs(last, 0, n);
      }
      forall j | 0 <= j < n && ring[j].Some? ensures WrittenAt(|log|, n, j) {
        StillWritten(last, n, j);
      }
    }
  }

  /** One of the last `n` of `length` writes went to entry `j`. */
  ghost predicate WrittenAt(length: nat, n: Positive, j: nat) {
    exists t :: 0 <= t < length && length - n <= t && t % n == j
  }

  lemma StillWritten(last: nat, n: Positive, j: nat)
    ensures j == last % n || WrittenAt(last, n, j) ==> WrittenAt(last + 1, n, j)
  {
    if j == last % n {
      assert 0 <= last < last + 1 && last + 1 - n <= last && last % n == j;
    } else if WrittenAt(last, n, j) {
      var t :| 0 <= t < last && last - n <= t && t % n == j;
      if t == last - n {
        SameModN(t, n);
      }
      assert 0 <= t < last + 1 && last + 1 - n <= t && t % n == j;
    }
  }

  lemma DistinctModN(s: nat, t: nat, n: Positive)
    requires s < t < s + n
    ensures s % n != t % n
  {
    QuotientIs(s, s / n, n);
    QuotientIs(t, t / n, n);
    MulMono(s / n + 1, t / n, n);
    MulMono(t / n, s / n, n);
    if s / n < t / n {
      MulMono(s / n + 2, t / n, n);
    }
  }

  lemma SameModN(t: nat, n: Positive)
    ensures (t + n) % n == t % n
  {
    QuotientIs(t, t / n, n);
    assert (t / n + 1) * n == t / n * n + n && (t / n + 2) * n == t / n * n + n + n;
    QuotientIs(t + n, t / n + 1, n);
  }

  lemma HoldsExactlyWindow<T>(log: seq<T>, n: Positive, m: Positive, x: T)
    requires CursorSound(|log|, n, m)
    ensures Holds(log, n, m, x) <==> x in Window(log, n)
  {
    var ring := RingAfter(log, n, m);
    RingEntries(log, n, m);
    if Holds(log, n, m, x) {
      var j :| 0 <= j < n && ring[j] == Some(x);
      assert WrittenAt(|log|, n, j);
      var t :| 0 <= t < |log| && |log| - n <= t && t % n == j;
      assert log[t] == x;
      InWindow(log, n, t);
    }
    if x in Window(log, n) {
      var t := FromWindow(log, n, x);
      assert ring[t % n] == Some(log[t]);
    }
  }

  lemma InWindow<T>(log: seq<T>, n: nat, t: nat)
    requires t < |log| && |log| - n <= t
    ensures log[t] in Window(log, n)
  {
    assert Window(log, n)[if |log| <= n then t else t - (|log| - n)] == log[t];
  }

  lemma FromWindow<T>(log: seq<T>, n: nat, x: T) returns (t: nat)
    requires x in Window(log, n)
    ensures t < |log| && |log| - n <= t && log[t] == x
  {
    var k :| 0 <= k < |Window(log, n)| && Window(log, n)[k] == x;
    t := if |log| <= n then k else k + (|log| - n);
  }

  lemma SpacedAppend<T>(log: seq<T>, n: nat, x: T)
    ensures Spaced(log + [x], n) <==> Spaced(log, n) && x !in Window(log, n)
  {
    var log', w := log + [x], Window(log, n);
    var shift := |log| - |w|;
    assert forall k | shift <= k < |log| :: log'[k] == w[k - shift];
    assert forall k | 0 <= k < |log| :: log'[k] == log[k];
    assert log'[|log|] == x;
    if x in w {
      var k :| 0 <= k < |w| && w[k] == x;
      assert log'[k + shift] == log'[|log|];
    }
  }

  lemma AdmissibleAppend<T>(log: seq<T>, n: Positive, m: Positive, x: T)
    ensures Admissible(log + [x], n, m) <==> Admissible(log, n, m) && !Holds(log, n, m, x)
  {
    var log' := log + [x];
    assert log'[..|log|] == log;
    assert forall j | 0 <= j < |log| :: log'[..j] == log[..j] && log'[j] == log[j];
  }

  /** What the ring is for, in every run: an entry comes back only after `n` others. */
  lemma {:induction false} AdmissibleIsSpaced<T>(log: seq<T>, n: Positive, m: Positive)
    requires CursorSound(|log|, n, m)
    ensures Admissible(log, n, m) <==> Spaced(log, n)
  {
    if log != [] {
      var last := |log| - 1;
      var rest := log[..last];
      assert log == rest + [log[last]];
      AdmissibleIsSpaced(rest, n, m);
      HoldsExactlyWindow(rest, n, m, log[last]);
      SpacedAppend(rest, n, log[last]);
      AdmissibleAppend(rest, n, m, log[last]);
    }
  }

  ghost predicate NoneTwice<T>(ring: seq<Option<T>>) {
    forall i, j | 0 <= i < j < |ring| && ring[i].Some? :: ring[i] != ring[j]
  }

  lemma WriteKeepsNoneTwice<T>(ring: seq<Option<T>>, c: nat, x: T)
    requires NoneTwice(ring) && Some(x) !in ring && c < |ring|
    ensures NoneTwice(ring[c := Some(x)])
  {
  }

  /** The ring never holds an entry twice, wherever its cursor goes. */
  lemma {:induction false} RingDistinct<T>(log: seq<T>, n: Positive, m: Positive)
    requires Admissible(log, n, m)
    ensures NoneTwice(RingAfter(log, n, m))
  {
    if log != [] {
      var last := |log| - 1;
      var rest, x := log[..last], log[last];
      assert log == rest + [x];
      AdmissibleAppend(rest, n, m, x);
      RingDistinct(rest, n, m);
      RingAppend(rest, x, n, m);
      WriteKeepsNoneTwice(RingAfter(rest, n, m), last % m % n, x);
    }
  }

  // ----- without divisibility the window breaks once the cursor wraps, unless too few values fill it -----

  ghost predicate Distinct<T>(s: seq<T>) {
    forall i, j | 0 <= i < j < |s| :: s[i] != s[j]
  }

  ghost predicate Over<T>(log: seq<T>, values: set<T>) {
    forall x | x in log :: x in values
  }

  /** The log that takes `n + 1` values in turn. */
  function InTurn<T>(values: seq<T>, n: Positive, length: nat): (log: seq<T>)
    requires Min(n + 1, length) <= |values|
    ensures |log| == length
  {
    seq(length, (t: nat) requires t < length => QuotientIs(t, 0, n + 1); values[t % (n + 1)])
  }

  lemma InTurnIsSpaced<T>(values: seq<T>, n: Positive, length: nat)
    requires Min(n + 1, length) <= |values| && Distinct(values)
    ensures Spaced(InTurn(values, n, length), n)
  {
    var log := InTurn(values, n, length);
    forall i, j | 0 <= i < j < |log| && log[i] == log[j] ensures n < j - i {
      QuotientIs(i, 0, n + 1);
      QuotientIs(j, 0, n + 1);
      assert i % (n + 1) == j % (n + 1);
      if j < i + (n + 1) {
        DistinctModN(i, j, n + 1);
      }
    }
  }

  /** The last multiple of `n` up to `m`. */
  function BlockStart(m: nat, n: Positive): (t: nat)
    ensures t <= m < t + n && t % n == 0
  {
    QuotientIs(m, m / n, n);
    QuotientIs(m / n * n, m / n, n);
    m / n * n
  }

  /** A log whose last entry comes back too early, when `n` does not divide `m`. */
  function EarlyRepeat<T>(values: seq<T>, n: Positive, m: Positive): seq<T>
    requires Min(n, m) < |values|
  {
    var log := InTurn(values, n, m + 1);
    log + [log[BlockStart(m, n)]]
  }

  lemma {:induction false} EarlyRepeatBreaksWindow<T>(values: seq<T>, n: Positive, m: Positive)
    requires m % n != 0 && Min(n, m) < |values| && Distinct(values)
    ensures Admissible(EarlyRepeat(values, n, m), n, m) && !Spaced(EarlyRepeat(values, n, m), n)
  {
    var t0, full, log := BlockStart(m, n), InTurn(values, n, m + 1), EarlyRepeat(values, n, m);
    var first := full[..m];
    assert full == first + [full[m]];
    InTurnIsSpaced(values, n, m + 1);
    FullTurnIsAdmissible(first, full[m], n, m);
    OverwrittenEarly(first, full[m], n, m, t0);
    AdmissibleAppend(full, n, m, full[t0]);
    assert log[t0] == log[m + 1] && m + 1 - t0 <= n;
  }

  /** Up to the moment the cursor wraps, spaced entries are admissible. */
  lemma FullTurnIsAdmissible<T>(first: seq<T>, next: T, n: Positive, m: Positive)
    requires |first| == m && Spaced(first + [next], n)
    ensures Admissible(first + [next], n, m)
  {
    SpacedAppend(first, n, next);
    AdmissibleIsSpaced(first, n, m);
    HoldsExactlyWindow(first, n, m, next);
    AdmissibleAppend(first, n, m, next);
  }

  /** When the cursor wraps at `m`, entry `m` lands on top of an entry still inside the window. */
  lemma {:induction false} OverwrittenEarly<T>(first: seq<T>, next: T, n: Positive, m: Positive, t0: nat)
    requires |first| == m && Spaced(first + [next], n) && t0 < m < t0 + n && t0 % n == 0
    ensures !Holds(first + [next], n, m, first[t0])
  {
    RingAppend(first, next, n, m);
    QuotientIs(m, 1, m);
    QuotientIs(0, 0, n);
    SpacedAppend(first, n, next);
    assert (first + [next])[t0] == first[t0] && (first + [next])[m] == next;
    forall j | 0 < j < n ensures RingAfter(first, n, m)[j] != Some(first[t0]) {
      OnlyBlockStartHolds(first, n, m, t0, j);
    }
  }

  lemma {:induction false} OnlyBlockStartHolds<T>(first: seq<T>, n: Positive, m: Positive, t0: nat, j: nat)
    requires |first| == m && Spaced(first, n) && t0 < m < t0 + n && t0 % n == 0 && 0 < j < n
    ensures RingAfter(first, n, m)[j] != Some(first[t0])
  {
    var ring := RingAfter(first, n, m);
    RingEntries(first, n, m);
    if ring[j].Some? {
      assert WrittenAt(|first|, n, j);
      var t :| 0 <= t < |first| && |first| - n <= t && t % n == j;
      assert ring[t % n] == Some(first[t]);
    }
  }

  /** Where there are no more values than the ring and the cursor can tell apart, none ever comes back. */
  lemma {:induction false} FewValues<T>(log: seq<T>, values: set<T>, n: Positive, m: Positive)
    requires Admissible(log, n, m) && Over(log, values) && |values| <= Min(n, m)
    ensures |log| <= |values|
  {
    if log != [] {
      var last := |log| - 1;
      var rest, x := log[..last], log[last];
      assert log == rest + [x];
      AdmissibleAppend(rest, n, m, x);
      FewValues(rest, values, n, m);
      HoldsExactlyWindow(rest, n, m, x);
      AdmissibleIsSpaced(rest, n, m);
      assert Distinct(rest) && x !in rest;
      DistinctFit(rest + [x], values);
    }
  }

  lemma {:induction false} DistinctFit<T>(s: seq<T>, values: set<T>)
    requires Distinct(s) && Over(s, values)
    ensures |s| <= |values|
  {
    if s != [] {
      var last := |s| - 1;
      DistinctFit(s[..last], values - {s[last]});
    }
  }

  lemma {:induction false} Listing<T>(values: set<T>) returns (s: seq<T>)
    ensures |s| == |values| && Distinct(s) && Over(s, values)
  {
    if values == {} {
      s := [];
    } else {
      var x :| x in values;
      s := Listing(values - {x});
      s := s + [x];
    }
  }

  ghost predicate KeepsWindow<T(!new)>(values: set<T>, n: Positive, m: Positive) {
    forall log: seq<T> :: Admissible(log, n, m) && Over(log, values) ==> Spaced(log, n)
  }

  lemma LogKeepsWindow<T>(log: seq<T>, values: set<T>, n: Positive, m: Positive)
    requires m % n == 0 || |values| <= Min(n, m)
    ensures Admissible(log, n, m) && Over(log, values) ==> Spaced(log, n)
  {
    if Admissible(log, n, m) && Over(log, values) {
      if m % n != 0 {
        FewValues(log, values, n, m);
      }
      AdmissibleIsSpaced(log, n, m);
    }
  }

  lemma SomeLogBreaksWindow<T>(values: set<T>, n: Positive, m: Positive) returns (log: seq<T>)
    requires m % n != 0 && Min(n, m) < |values|
    ensures Admissible(log, n, m) && Over(log, values) && !Spaced(log, n)
  {
    var s := Listing(values);
    log := EarlyRepeat(s, n, m);
    EarlyRepeatBreaksWindow(s, n, m);
    EarlyRepeatOver(s, values, n, m);
  }

  lemma EarlyRepeatOver<T>(s: seq<T>, values: set<T>, n: Positive, m: Positive)
    requires Over(s, values) && Min(n, m) < |s|
    ensures Over(EarlyRepeat(s, n, m), values)
  {
    var full := InTurn(s, n, m + 1);
    forall t | 0 <= t < |full| ensures full[t] in values {
      QuotientIs(t, 0, n + 1);
    }
  }

  /**
    The ring keeps its promise for every log over `values` exactly if its size divides the cursor's modulus, or there
    are too few values for the ring to fill or the cursor to wrap before one comes back.
   */
  lemma RingKeepsWindowIff<T(!new)>(values: set<T>, n: Positive, m: Positive)
    ensures KeepsWindow(values, n, m) <==> m % n == 0 || |values| <= Min(n, m)
  {
    if m % n == 0 || |values| <= Min(n, m) {
      forall log: seq<T> ensures Admissible(log, n, m) && Over(log, values) ==> Spaced(log, n) {
        LogKeepsWindow(log, values, n, m);
      }
    } else {
      var log := SomeLogBreaksWindow(values, n, m);
    }
  }
}
