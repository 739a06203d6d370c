/** The run-to-completion loop of `sml.hpp` as functions of the machine, with a bound on the rounds of each loop. */
module RunToCompletion {
  import opened Dispatching
  import opened Entries
  import opened Transitions

  /** A machine with the history of its process queue: everything pushed to it, everything taken from it. */
  datatype Machine<E, D> = Machine(config: Config<E, D>, pushed: seq<E>, taken: seq<E>) {
    /** Every event pushed has been taken once, in the order of the pushes, or is still queued. */
    ghost predicate Accounted() {
      pushed == taken + config.process
    }

    predicate Idle() {
      |config.regions| > 0 && !config.deferring && !config.again
    }
  }

  /** The machine after a change of its configuration that only appended to the process queue. */
  function Recorded<E, D>(s: Machine<E, D>, c: Config<E, D>): (s': Machine<E, D>)
    requires |s.config.process| <= |c.process|
    ensures s'.config == c
  {
    Machine(c, s.pushed + c.process[|s.config.process|..], s.taken)
  }

  lemma RecordedAgain<E, D>(s: Machine<E, D>, c: Config<E, D>, c': Config<E, D>)
    requires s.config.process <= c.process <= c'.process
    ensures Recorded(Recorded(s, c), c') == Recorded(s, c')
    ensures Recorded(s, s.config) == s
  {
    assert c'.process[|s.config.process|..] == c.process[|s.config.process|..] + c'.process[|c.process|..];
  }

  /** `process_internal_events` */
  function Sent<E, D>(m: Table<E, D>, s: Machine<E, D>, e: E): (x: (Machine<E, D>, bool))
    ensures Extends(s, x.0)
    ensures Evolves(s.config, x.0.config) && x.0.taken == s.taken && (!x.1 ==> x.0 == s)
  {
    var (c, handled) := Dispatched(m, s.config, e);
    (Recorded(s, c), handled)
  }

  /** History is only added to. */
  ghost predicate Extends<E, D>(s: Machine<E, D>, s': Machine<E, D>) {
    s.pushed <= s'.pushed && s.taken <= s'.taken && (s.Accounted() ==> s'.Accounted())
  }

  // ----- the defer queue

  /** `process_event_no_defer` with the loop's reset of the flag and its return to the front when region 0 has changed. */
  function DeferStep<E, D>(m: Table<E, D>, s: Machine<E, D>, it: nat): (x: (Machine<E, D>, nat, bool))
    requires it < |s.config.defer| && s.config.deferring && |s.config.regions| > 0
    ensures x.1 <= |x.0.config.defer| && |x.0.config.regions| == |s.config.regions|
    ensures x.0.config.deferring && !x.0.config.again
    ensures Extends(s, x.0)
  {
    var (s1, handled) := Sent(m, s, s.config.defer[it]);
    var kept := handled && s1.config.again;
    var c := s1.config.(defer := if kept then s1.config.defer else Without(s1.config.defer, it), again := false);
    var next := if kept then it + 1 else it;
    (s1.(config := c), if c.regions[0] != s.config.regions[0] then 0 else next, handled)
  }

  function Without<E>(q: seq<E>, i: nat): (r: seq<E>)
    requires i < |q|
    ensures |r| == |q| - 1
  {
    q[..i] + q[i + 1..]
  }

  /** The loop of `process_defer_events`, from the position `it` on. */
  function Drained<E, D>(m: Table<E, D>, s: Machine<E, D>, it: nat, processed: bool,
      fuel: nat): (x: Option<(Machine<E, D>, bool)>)
    requires it <= |s.config.defer| && s.config.deferring && !s.config.again && |s.config.regions| > 0
    ensures x.Some? ==> x.value.0.Idle() && |x.value.0.config.regions| == |s.config.regions|
    ensures x.Some? ==> Extends(s, x.value.0)
    decreases fuel
  {
    if it == |s.config.defer| then Some((s.(config := s.config.(deferring := false)), processed))
    else if fuel == 0 then None
    else
      var (s1, it1, handled) := DeferStep(m, s, it);
      Drained(m, s1, it1, processed || handled, fuel - 1)
  }

  /** `process_defer_events` */
  function DeferEvents<E, D>(m: Table<E, D>, s: Machine<E, D>, changed: bool, fuel: nat): (x: Option<(Machine<E, D>,
      bool)>)
    requires s.Idle()
    ensures x.Some? ==> x.value.0.Idle() && |x.value.0.config.regions| == |s.config.regions|
    ensures x.Some? ==> Extends(s, x.value.0)
  {
    if changed then Drained(m, s.(config := s.config.(deferring := true)), 0, false, fuel) else Some((s, false))
  }

  // ----- what draining does to the queue

  /** `r` is `s` with some elements left out. */
  ghost predicate Subsequence<E>(r: seq<E>, s: seq<E>) {
    if r == [] then true
    else if s == [] then false
    else (r[0] == s[0] && Subsequence(r[1..], s[1..])) || Subsequence(r, s[1..])
  }

  lemma {:induction false} SubsequenceSelf<E>(s: seq<E>)
    ensures Subsequence(s, s)
  {
    if s != [] {
      SubsequenceSelf(s[1..]);
    }
  }

  lemma {:induction false} SubsequenceTail<E>(r: seq<E>, s: seq<E>)
    requires Subsequence(r, s) && r != []
    ensures Subsequence(r[1..], s)
    decreases |s|
  {
    if r[0] == s[0] && Subsequence(r[1..], s[1..]) {
      if r[1..] != [] {
        SubsequenceLonger(r[1..], s);
      }
    } else {
      SubsequenceTail(r, s[1..]);
      SubsequenceLonger(r[1..], s);
    }
  }

  lemma SubsequenceLonger<E>(r: seq<E>, s: seq<E>)
    requires s != [] && Subsequence(r, s[1..])
    ensures Subsequence(r, s)
  {
  }

  lemma {:induction false} SubsequenceWithout<E>(r: seq<E>, s: seq<E>, i: nat)
    requires Subsequence(r, s) && i < |r|
    ensures Subsequence(Without(r, i), s)
    decreases |s|
  {
    if r[0] == s[0] && Subsequence(r[1..], s[1..]) {
      if i == 0 {
        assert Without(r, 0) == r[1..];
        SubsequenceLonger(r[1..], s);
      } else {
        SubsequenceWithout(r[1..], s[1..], i - 1);
        assert Without(r, i)[1..] == Without(r[1..], i - 1);
      }
    } else {
      SubsequenceWithout(r, s[1..], i);
      SubsequenceLonger(Without(r, i), s);
    }
  }

  /** What one step of the drain did: which event, whether it stays, and whether the loop went back to the front. */
  datatype Outcome<E> = Outcome(event: E, kept: bool, restart: bool)

  function OutcomeOf<E, D>(m: Table<E, D>, s: Machine<E, D>, it: nat): Outcome<E>
    requires it < |s.config.defer| && |s.config.regions| > 0
  {
    var (s1, handled) := Sent(m, s, s.config.defer[it]);
    Outcome(s.config.defer[it], handled && s1.config.again, s1.config.regions[0] != s.config.regions[0])
  }

  lemma StepQueue<E, D>(m: Table<E, D>, s: Machine<E, D>, it: nat)
    requires it < |s.config.defer| && s.config.deferring && |s.config.regions| > 0
    ensures var x, o := DeferStep(m, s, it), OutcomeOf(m, s, it);
      && x.0.config.defer == (if o.kept then s.config.defer else Without(s.config.defer, it))
      && x.1 == (if o.restart then 0 else if o.kept then it + 1 else it)
      && o.event == s.config.defer[it]
  {
  }

  /** Draining never adds to the queue and keeps the order of what stays. */
  lemma {:induction false} DrainingKeepsOrder<E, D>(m: Table<E, D>, s: Machine<E, D>, it: nat, processed: bool,
      fuel: nat, q: seq<E>)
    requires it <= |s.config.defer| && s.config.deferring && !s.config.again && |s.config.regions| > 0
    requires Drained(m, s, it, processed, fuel).Some? && Subsequence(s.config.defer, q)
    ensures Subsequence(Drained(m, s, it, processed, fuel).value.0.config.defer, q)
    decreases fuel
  {
    hide DeferStep, OutcomeOf, Subsequence, Without;
    if it < |s.config.defer| {
      var (s1, it1, handled) := DeferStep(m, s, it);
      StepQueue(m, s, it);
      SubsequenceWithout(s.config.defer, q, it);
      DrainingKeepsOrder(m, s1, it1, processed || handled, fuel - 1, q);
    }
  }

  /** All steps of the drain, in order. */
  function Trace<E, D>(m: Table<E, D>, s: Machine<E, D>, it: nat, fuel: nat): seq<Outcome<E>>
    requires it <= |s.config.defer| && s.config.deferring && !s.config.again && |s.config.regions| > 0
    decreases fuel
  {
    if it == |s.config.defer| || fuel == 0 then []
    else
      var (s1, it1, _) := DeferStep(m, s, it);
      [OutcomeOf(m, s, it)] + Trace(m, s1, it1, fuel - 1)
  }

  function Dropped<E>(trace: seq<Outcome<E>>): seq<E> {
    if trace == [] then [] else (if trace[0].kept then [] else [trace[0].event]) + Dropped(trace[1..])
  }

  /** The events kept since the last return to the front; `before` were kept before the trace began. */
  function KeptLast<E>(before: seq<E>, trace: seq<Outcome<E>>): seq<E>
    decreases |trace|
  {
    if trace == [] then before
    else KeptLast(if trace[0].restart then [] else if trace[0].kept then before + [trace[0].event] else before, trace[1..])
  }

  lemma WithoutOne<E>(q: seq<E>, i: nat)
    requires i < |q|
    ensures Without(q, i)[..i] == q[..i] && q[..i + 1] == q[..i] + [q[i]]
    ensures multiset(q) == multiset(Without(q, i)) + multiset{q[i]}
  {
    assert q == q[..i] + [q[i]] + q[i + 1..];
  }

  /** The drain removes exactly the events that were not deferred again. */
  lemma {:induction false} DrainingConserves<E, D>(m: Table<E, D>, s: Machine<E, D>, it: nat, processed: bool,
      fuel: nat)
    requires it <= |s.config.defer| && s.config.deferring && !s.config.again && |s.config.regions| > 0
    requires Drained(m, s, it, processed, fuel).Some?
    ensures multiset(s.config.defer)
         == multiset(Drained(m, s, it, processed, fuel).value.0.config.defer) + multiset(Dropped(Trace(m, s, it, fuel)))
    decreases fuel
  {
    hide DeferStep, OutcomeOf, Without, Extends, Sent, Dropped;
    if it < |s.config.defer| {
      var (s1, it1, handled) := DeferStep(m, s, it);
      StepQueue(m, s, it);
      DrainingConserves(m, s1, it1, processed || handled, fuel - 1);
      WithoutOne(s.config.defer, it);
      var o, rest := OutcomeOf(m, s, it), Trace(m, s1, it1, fuel - 1);
      DroppedStep(o, rest);
      assert Trace(m, s, it, fuel) == [o] + rest;
    } else {
      assert Trace(m, s, it, fuel) == [];
      DroppedNone<E>();
    }
  }

  lemma DroppedNone<E>()
    ensures var none: seq<Outcome<E>> := []; Dropped(none) == []
  {
  }

  lemma DroppedStep<E>(o: Outcome<E>, rest: seq<Outcome<E>>)
    ensures multiset(Dropped([o] + rest)) == (if o.kept then multiset{} else multiset{o.event}) + multiset(Dropped(rest))
  {
    assert ([o] + rest)[1..] == rest;
  }

  /** What is left was deferred again, event by event, since the loop last started from the front. */
  lemma {:induction false} DrainingSurvivors<E, D>(m: Table<E, D>, s: Machine<E, D>, it: nat, processed: bool,
      fuel: nat)
    requires it <= |s.config.defer| && s.config.deferring && !s.config.again && |s.config.regions| > 0
    requires Drained(m, s, it, processed, fuel).Some?
    ensures Drained(m, s, it, processed, fuel).value.0.config.defer == KeptLast(s.config.defer[..it], Trace(m, s, it, fuel))
    decreases fuel
  {
    hide DeferStep, OutcomeOf, Without;
    if it < |s.config.defer| {
      var (s1, it1, handled) := DeferStep(m, s, it);
      StepQueue(m, s, it);
      WithoutOne(s.config.defer, it);
      DrainingSurvivors(m, s1, it1, processed || handled, fuel - 1);
      assert Trace(m, s, it, fuel)[1..] == Trace(m, s1, it1, fuel - 1);
    } else {
      assert s.config.defer[..it] == s.config.defer;
    }
  }

  // ----- when the drain ends

  /** How often an event was deferred again and yet the loop went back to the front. */
  function Relapses<E>(trace: seq<Outcome<E>>): (n: nat)
    ensures n <= |trace|
  {
    if trace == [] then 0 else (if trace[0].kept && trace[0].restart then 1 else 0) + Relapses(trace[1..])
  }

  /** An upper bound for the steps that are left, for `n` events with `it` of them behind and `k` relapses to come. */
  function StepsLeft(n: nat, it: nat, k: nat): (steps: int)
    ensures it <= n ==> steps >= 0
  {
    k * (n * n + n + 1) + n * n + (n - it)
  }

  lemma FewerSteps(n: nat, it: nat, it': nat, k: nat)
    requires it < n
    ensures it' <= n - 1 ==> StepsLeft(n - 1, it', k) < StepsLeft(n, it, k)
    ensures StepsLeft(n, it + 1, k) < StepsLeft(n, it, k)
    ensures k > 0 ==> StepsLeft(n, 0, k - 1) < StepsLeft(n, it, k)
  {
    var a, b := (n - 1) * (n - 1) + (n - 1) + 1, n * n + n + 1;
    assert n * n == (n - 1) * (n - 1) + 2 * n - 1;
    assert k * (b - a) == k * b - k * a && k * (b - a) >= 0;
    assert (k - 1) * b == k * b - b;
  }

  /** A drain with at most `k` relapses ends within the bound. */
  lemma {:induction false} DrainingEndsAfter<E, D>(m: Table<E, D>, s: Machine<E, D>, it: nat, processed: bool,
      fuel: nat, k: nat)
    requires it <= |s.config.defer| && s.config.deferring && !s.config.again && |s.config.regions| > 0
    requires Relapses(Trace(m, s, it, fuel)) <= k && fuel >= StepsLeft(|s.config.defer|, it, k)
    ensures Drained(m, s, it, processed, fuel).Some?
    decreases fuel
  {
    hide DeferStep, OutcomeOf, Without, StepsLeft;
    var n := |s.config.defer|;
    if it < n {
      FewerSteps(n, it, 0, k);
      var (s1, it1, handled) := DeferStep(m, s, it);
      StepQueue(m, s, it);
      FewerSteps(n, it, it1, k);
      var o := OutcomeOf(m, s, it);
      assert Trace(m, s, it, fuel)[1..] == Trace(m, s1, it1, fuel - 1);
      DrainingEndsAfter(m, s1, it1, processed || handled, fuel - 1, if o.kept && o.restart then k - 1 else k);
    }
  }

  lemma {:induction false} TraceStops<E, D>(m: Table<E, D>, s: Machine<E, D>, it: nat, processed: bool, fuel: nat,
      fuel': nat)
    requires it <= |s.config.defer| && s.config.deferring && !s.config.again && |s.config.regions| > 0
    requires Drained(m, s, it, processed, fuel).Some?
    ensures |Trace(m, s, it, fuel')| <= fuel
    decreases fuel
  {
    hide DeferStep, OutcomeOf;
    if it < |s.config.defer| && fuel' > 0 {
      var (s1, it1, handled) := DeferStep(m, s, it);
      TraceStops(m, s1, it1, processed || handled, fuel - 1, fuel' - 1);
    }
  }

  ghost predicate RelapsesAtMost<E, D>(m: Table<E, D>, s: Machine<E, D>, k: nat)
    requires s.config.deferring && !s.config.again && |s.config.regions| > 0
  {
    forall fuel: nat :: Relapses(Trace(m, s, 0, fuel)) <= k
  }

  /** A drain returns if and only if it relapses only finitely often. */
  lemma DrainingEndsExactly<E, D>(m: Table<E, D>, s: Machine<E, D>)
    requires s.config.deferring && !s.config.again && |s.config.regions| > 0
    ensures (exists fuel: nat :: Drained(m, s, 0, false, fuel).Some?) <==> (exists k: nat :: RelapsesAtMost(m, s, k))
  {
    if fuel: nat :| Drained(m, s, 0, false, fuel).Some? {
      forall fuel': nat ensures Relapses(Trace(m, s, 0, fuel')) <= fuel {
        TraceStops(m, s, 0, false, fuel, fuel');
      }
      assert RelapsesAtMost(m, s, fuel);
    }
    if k: nat :| RelapsesAtMost(m, s, k) {
      var fuel: nat := StepsLeft(|s.config.defer|, 0, k);
      DrainingEndsAfter(m, s, 0, false, fuel, k);
    }
  }

  /** Region `r` of `n` regions stays among the states that `home` gives it. */
  predicate Lives<E, D>(c: Config<E, D>, n: nat, home: (nat, nat) -> bool) {
    |c.regions| == n > 0 && forall r | 0 <= r < n :: home(r, c.regions[r])
  }

  /** Every region keeps to its states, and an event that is deferred again during a drain leaves region 0 as it was. */
  ghost predicate Steady<E(!new), D(!new)>(m: Table<E, D>, n: nat, home: (nat, nat) -> bool) {
    forall c: Config<E, D>, e: E | Lives(c, n, home) ::
      var c' := Dispatched(m, c, e).0;
      Lives(c', n, home) && (c.deferring && !c.again && c'.again ==> c'.regions[0] == c.regions[0])
  }

  lemma {:induction false} SteadyNeverRelapses<E(!new), D(!new)>(m: Table<E, D>, s: Machine<E, D>, it: nat, fuel: nat,
      n: nat, home: (nat, nat) -> bool)
    requires it <= |s.config.defer| && s.config.deferring && !s.config.again
    requires Lives(s.config, n, home) && Steady(m, n, home)
    ensures Relapses(Trace(m, s, it, fuel)) == 0
    decreases fuel
  {
    hide DeferStep, OutcomeOf, Steady;
    if it < |s.config.defer| && fuel > 0 {
      SteadyStep(m, s, it, n, home);
      var (s1, it1, handled) := DeferStep(m, s, it);
      SteadyNeverRelapses(m, s1, it1, fuel - 1, n, home);
      assert Trace(m, s, it, fuel)[1..] == Trace(m, s1, it1, fuel - 1);
    }
  }

  lemma SteadyStep<E(!new), D(!new)>(m: Table<E, D>, s: Machine<E, D>, it: nat, n: nat, home: (nat, nat) -> bool)
    requires it < |s.config.defer| && s.config.deferring && !s.config.again
    requires Lives(s.config, n, home) && Steady(m, n, home)
    ensures OutcomeOf(m, s, it).kept ==> !OutcomeOf(m, s, it).restart
    ensures Lives(DeferStep(m, s, it).0.config, n, home)
  {
    var x := Dispatched(m, s.config, s.config.defer[it]);
  }

  /** With such a table every drain of `k` events returns, within `k * k + k` steps. */
  lemma DrainingEnds<E(!new), D(!new)>(m: Table<E, D>, s: Machine<E, D>, fuel: nat, n: nat, home: (nat, nat) -> bool)
    requires s.config.deferring && !s.config.again && Lives(s.config, n, home) && Steady(m, n, home)
    requires fuel >= |s.config.defer| * |s.config.defer| + |s.config.defer|
    ensures Drained(m, s, 0, false, fuel).Some?
  {
    SteadyNeverRelapses(m, s, 0, fuel, n, home);
    hide Drained, Trace, Steady;
    DrainingEndsAfter(m, s, 0, false, fuel, 0);
  }

  // ----- a condition on the rows of the table

  predicate Defers<E, D>(row: Row<E, D>) {
    exists i | 0 <= i < |row.action| :: row.action[i].Defer?
  }

  /** An internal transition, or one from a state to itself. */
  predicate Stays<E, D>(row: Row<E, D>) {
    row.destination.Nowhere? || row.destination == row.source
  }

  /** The row is for a state of region `r`, or for any state. */
  predicate Takeable<E, D>(row: Row<E, D>, r: nat, home: (nat, nat) -> bool) {
    row.source.Nowhere? || home(r, row.source.id)
  }

  /** No row leads a region out of its states. */
  predicate Closed<E, D>(m: Table<E, D>, n: nat, home: (nat, nat) -> bool) {
    forall i, r | 0 <= i < |m.rows| && 0 <= r < n && Takeable(m.rows[i], r, home) && m.rows[i].destination.State? ::
      home(r, m.rows[i].destination.id)
  }

  /**
    In region 0 a row that defers does not change the state; and while region 0
    changes its state, no other region defers the same kind of event.
  */
  predicate DefersInPlace<E, D>(m: Table<E, D>, n: nat, home: (nat, nat) -> bool) {
    && (forall i | 0 <= i < |m.rows| && Takeable(m.rows[i], 0, home) && Defers(m.rows[i]) :: Stays(m.rows[i]))
    && (forall i, j, r | 0 <= i < |m.rows| && 0 <= j < |m.rows| && 0 < r < n && m.rows[i].kind == m.rows[j].kind
          && Takeable(m.rows[i], r, home) && Defers(m.rows[i]) && Takeable(m.rows[j], 0, home) :: Stays(m.rows[j]))
  }

  /** The row at `i` is for the event and for the state of region `r`. */
  predicate Applies<E, D>(m: Table<E, D>, c: Config<E, D>, e: E, r: nat, i: nat)
    requires r < |c.regions|
  {
    && i < |m.rows| && m.rows[i].kind == m.kind(e)
    && (m.rows[i].source.Nowhere? || m.rows[i].source == State(c.regions[r]))
  }

  /** In its own region a row moves within the region's states, raises the flag only by deferring, and may stay. */
  lemma RegionEffect<E, D>(m: Table<E, D>, c: Config<E, D>, e: E, r: nat, n: nat, home: (nat, nat) -> bool)
    returns (i: nat)
    requires r < n && Lives(c, n, home) && Closed(m, n, home)
    ensures Lives(InRegion(m, c, e, r).0, n, home)
    ensures InRegion(m, c, e, r).1 ==> Applies(m, c, e, r, i) && Takeable(m.rows[i], r, home)
    ensures InRegion(m, c, e, r).1 && Stays(m.rows[i]) ==> InRegion(m, c, e, r).0.regions == c.regions
    ensures InRegion(m, c, e, r).1 && !Defers(m.rows[i]) ==> InRegion(m, c, e, r).0.again == c.again
  {
    i := 0;
    if InRegion(m, c, e, r).1 {
      RegionExactly(m, c, e, r);
      i :| Chosen(m, c.regions[r], e, c.data, i);
      hide InRegion, Taken;
      TakenExactly(m, c, e, r, m.rows[i]);
      DeferralsSome(m.rows[i].action);
    }
  }

  /** If the regions from `r` on raise the flag, one of them takes a row that defers. */
  lemma {:induction false} RegionsEffect<E, D>(m: Table<E, D>, c: Config<E, D>, e: E, r: nat, n: nat,
      home: (nat, nat) -> bool) returns (i: nat, q: nat)
    requires r <= n && Lives(c, n, home) && Closed(m, n, home)
    ensures var c' := FromRegion(m, c, e, r).0;
      && Lives(c', n, home) && (r > 0 ==> c'.regions[0] == c.regions[0])
      && (c'.again && !c.again ==> r <= q < n && i < |m.rows| && m.rows[i].kind == m.kind(e)
                                   && Takeable(m.rows[i], q, home) && Defers(m.rows[i]))
    decreases n - r
  {
    hide InRegion, Defers, Closed;
    i, q := 0, r;
    if r < n {
      var k := RegionEffect(m, c, e, r, n, home);
      var c1 := InRegion(m, c, e, r).0;
      i, q := RegionsEffect(m, c1, e, r + 1, n, home);
      if c1.again && !c.again {
        i, q := k, r;
      }
    }
  }

  /** Such tables are steady. */
  lemma InPlaceIsSteady<E(!new), D(!new)>(m: Table<E, D>, n: nat, home: (nat, nat) -> bool)
    requires n > 0 && Closed(m, n, home) && DefersInPlace(m, n, home)
    ensures Steady(m, n, home)
  {
    hide InRegion, Defers, Closed;
    forall c: Config<E, D>, e: E | Lives(c, n, home)
      ensures var c' := Dispatched(m, c, e).0;
        Lives(c', n, home) && (c.deferring && !c.again && c'.again ==> c'.regions[0] == c.regions[0])
    {
      var j := RegionEffect(m, c, e, 0, n, home);
      var c1 := InRegion(m, c, e, 0).0;
      var i, q := RegionsEffect(m, c1, e, 1, n, home);
    }
  }

  /** For a single region it is enough that each row that defers stays in its state. */
  lemma OneRegionSteady<E(!new), D(!new)>(m: Table<E, D>)
    requires forall i | 0 <= i < |m.rows| && Defers(m.rows[i]) :: Stays(m.rows[i])
    ensures Steady(m, 1, (r, state) => true)
  {
    InPlaceIsSteady(m, 1, (r, state) => true);
  }

  // ----- a machine that never returns

  /** Two states; the event of kind 1 leads from either to the other and is deferred each time. */
  function Restless(): Table<nat, nat> {
    Table([Row(State(0), 1, (e, d) => true, [Defer], State(1)), Row(State(1), 1, (e, d) => true, [Defer], State(0))],
          e => e, 0, (n, e, d) => (d, []), (n, e, d) => (d, []))
  }

  function RestlessIn(state: nat): Machine<nat, nat> {
    Machine(Config([state], 0, [1], [], true, false), [], [])
  }

  lemma RestlessStep(state: nat)
    requires state < 2
    ensures DeferStep(Restless(), RestlessIn(state), 0) == (RestlessIn(1 - state), 0, true)
  {
    var m, s := Restless(), RestlessIn(state);
    assert m.rows[1..][1..] == [];
    assert Candidates(m, state, 1) == [m.rows[state]];
    assert [State(1)][1..] == [] && ActedAll(s.config, 1, [Defer]) == s.config.(again := true);
    var to := 1 - state;
    assert [state][0 := to] == [to];
    var c := s.config.(regions := [to], again := true);
    assert Taken(m, s.config, 1, 0, m.rows[state]) == c;
    assert InRegion(m, s.config, 1, 0) == (c, true);
    assert FromRegion(m, c, 1, 1) == (c, false);
    assert Dispatched(m, s.config, 1) == (c, true);
  }

  /** However long its drain runs, it has not come to an end. */
  lemma {:induction false} RestlessNeverReturns(state: nat, processed: bool, fuel: nat)
    requires state < 2
    ensures Drained(Restless(), RestlessIn(state), 0, processed, fuel).None?
    decreases fuel
  {
    hide DeferStep, Restless;
    if fuel > 0 {
      RestlessStep(state);
      RestlessNeverReturns(1 - state, true, fuel - 1);
    }
  }

  // ----- the whole loop

  /** The anonymous transitions, until none is enabled. */
  function Completed<E, D>(m: Table<E, D>, s: Machine<E, D>, fuel: nat): (x: Option<Machine<E, D>>)
    requires s.Idle()
    ensures x.Some? ==> x.value.Idle() && |x.value.config.regions| == |s.config.regions|
    ensures x.Some? ==> Extends(s, x.value)
    ensures x.Some? ==> Quiet(m, x.value)
    decreases fuel
  {
    var (s1, handled) := Sent(m, s, m.anonymous);
    if !handled then Some(s1) else if fuel == 0 then None else Completed(m, s1, fuel - 1)
  }

  /** No anonymous transition is enabled. */
  predicate Quiet<E, D>(m: Table<E, D>, s: Machine<E, D>) {
    !Dispatched(m, s.config, m.anonymous).1
  }

  /** The inner loop of `process_event`; also the state of region 0 that the next round compares with. */
  function Settled<E, D>(m: Table<E, D>, s: Machine<E, D>, last: nat, fuel: nat): (x: Option<(Machine<E, D>, nat)>)
    requires s.Idle()
    ensures x.Some? ==> x.value.0.Idle() && |x.value.0.config.regions| == |s.config.regions|
    ensures x.Some? ==> Extends(s, x.value.0)
    decreases fuel
  {
    match Completed(m, s, fuel)
    case None => None
    case Some(s1) =>
      match DeferEvents(m, s1, last != s1.config.regions[0], fuel)
      case None => None
      case Some((s2, processed)) =>
        if !processed then Some((s2, s1.config.regions[0]))
        else if fuel == 0 then None
        else Settled(m, s2, s1.config.regions[0], fuel - 1)
  }

  /** One event from the front of the process queue; it is removed after it was handled. */
  function TakenFirst<E, D>(m: Table<E, D>, s: Machine<E, D>): (x: (Machine<E, D>, bool))
    requires s.Idle() && s.config.process != []
    ensures x.0.Idle() && |x.0.config.regions| == |s.config.regions|
    ensures Extends(s, x.0)
  {
    var (s1, handled) := Sent(m, s, s.config.process[0]);
    (Machine(s1.config.(process := s1.config.process[1..]), s1.pushed, s1.taken + [s1.config.process[0]]), handled)
  }

  /** `process_queued_events`, for a queue that need not be empty */
  function Queued<E, D>(m: Table<E, D>, s: Machine<E, D>, handled: bool, fuel: nat): (x: Option<(Machine<E, D>, bool)>)
    requires s.Idle()
    ensures x.Some? ==> x.value.0.Idle() && x.value.0.config.process == []
    ensures x.Some? ==> Extends(s, x.value.0)
    ensures x.Some? && s.config.process == [] ==> x.value.0 == s
    decreases fuel
  {
    if s.config.process == [] then Some((s, handled))
    else if fuel == 0 then None
    else
      var (s1, h) := TakenFirst(m, s);
      Queued(m, s1, handled && h, fuel - 1)
  }

  /** The outer loop of `process_event`. */
  function Finished<E, D>(m: Table<E, D>, s: Machine<E, D>, last: nat, handled: bool,
      fuel: nat): (x: Option<(Machine<E, D>, bool)>)
    requires s.Idle()
    ensures x.Some? ==> x.value.0.Idle() && x.value.0.config.process == []
    ensures x.Some? ==> Extends(s, x.value.0)
    decreases fuel
  {
    match Settled(m, s, last, fuel)
    case None => None
    case Some((s1, last1)) =>
      match Queued(m, s1, handled, fuel)
      case None => None
      case Some((s2, handled2)) =>
        if s1.config.process == [] then Some((s2, handled2))
        else if fuel == 0 then None
        else Finished(m, s2, last1, handled2, fuel - 1)
  }

  /** `process_event` of `sm_impl`: no result if a loop runs for more than `fuel` rounds. */
  function Processed<E, D>(m: Table<E, D>, s: Machine<E, D>, e: E, fuel: nat): (x: Option<(Machine<E, D>, bool)>)
    requires s.Idle()
  {
    var (s1, handled) := Sent(m, s, e);
    match Finished(m, s1, s.config.regions[0], true, fuel)
    case None => None
    case Some((s2, queuedHandled)) => Some((s2, handled && queuedHandled))
  }

  /** A drain that handles no event leaves the states, the data and the process queue as they were. */
  lemma {:induction false} UnhandledDrain<E, D>(m: Table<E, D>, s: Machine<E, D>, it: nat, fuel: nat)
    requires it <= |s.config.defer| && s.config.deferring && !s.config.again && |s.config.regions| > 0
    requires Drained(m, s, it, false, fuel).Some? && !Drained(m, s, it, false, fuel).value.1
    ensures var c := Drained(m, s, it, false, fuel).value.0.config;
      c.regions == s.config.regions && c.data == s.config.data && c.process == s.config.process
    decreases fuel
  {
    hide DeferStep;
    if it < |s.config.defer| {
      var (s1, it1, handled) := DeferStep(m, s, it);
      HandledStays(m, s1, it1, fuel - 1);
      UnhandledStep(m, s, it);
      UnhandledDrain(m, s1, it1, fuel - 1);
    }
  }

  lemma UnhandledStep<E, D>(m: Table<E, D>, s: Machine<E, D>, it: nat)
    requires it < |s.config.defer| && s.config.deferring && |s.config.regions| > 0 && !DeferStep(m, s, it).2
    ensures var c := DeferStep(m, s, it).0.config;
      c.regions == s.config.regions && c.data == s.config.data && c.process == s.config.process
  {
  }

  lemma {:induction false} HandledStays<E, D>(m: Table<E, D>, s: Machine<E, D>, it: nat, fuel: nat)
    requires it <= |s.config.defer| && s.config.deferring && !s.config.again && |s.config.regions| > 0
    ensures Drained(m, s, it, true, fuel).Some? ==> Drained(m, s, it, true, fuel).value.1
    decreases fuel
  {
    hide DeferStep;
    if it < |s.config.defer| && fuel > 0 {
      var (s1, it1, handled) := DeferStep(m, s, it);
      HandledStays(m, s1, it1, fuel - 1);
    }
  }

  lemma QuietAfterDefer<E, D>(m: Table<E, D>, s: Machine<E, D>, changed: bool, fuel: nat)
    requires s.Idle() && Quiet(m, s)
    requires DeferEvents(m, s, changed, fuel).Some? && !DeferEvents(m, s, changed, fuel).value.1
    ensures Quiet(m, DeferEvents(m, s, changed, fuel).value.0)
    ensures DeferEvents(m, s, changed, fuel).value.0.config.regions[0] == s.config.regions[0]
  {
    hide Drained;
    if changed {
      UnhandledDrain(m, s.(config := s.config.(deferring := true)), 0, fuel);
    }
    UnhandledRegions(m, s.config, DeferEvents(m, s, changed, fuel).value.0.config, m.anonymous, 0);
  }

  lemma {:induction false} SettledQuiet<E, D>(m: Table<E, D>, s: Machine<E, D>, last: nat, fuel: nat)
    requires s.Idle() && Settled(m, s, last, fuel).Some?
    ensures Quiet(m, Settled(m, s, last, fuel).value.0)
    ensures Settled(m, s, last, fuel).value.1 == Settled(m, s, last, fuel).value.0.config.regions[0]
    decreases fuel
  {
    hide Completed, DeferEvents, Quiet;
    var s1 := Completed(m, s, fuel).value;
    var changed := last != s1.config.regions[0];
    var (s2, processed) := DeferEvents(m, s1, changed, fuel).value;
    if processed {
      SettledQuiet(m, s2, s1.config.regions[0], fuel - 1);
    } else {
      QuietAfterDefer(m, s1, changed, fuel);
    }
  }

  lemma {:induction false} FinishedQuiet<E, D>(m: Table<E, D>, s: Machine<E, D>, last: nat, handled: bool, fuel: nat)
    requires s.Idle() && Finished(m, s, last, handled, fuel).Some?
    ensures Quiet(m, Finished(m, s, last, handled, fuel).value.0)
    decreases fuel
  {
    hide Settled, Queued, Quiet;
    var (s1, last1) := Settled(m, s, last, fuel).value;
    var (s2, handled2) := Queued(m, s1, handled, fuel).value;
    SettledQuiet(m, s, last, fuel);
    if s1.config.process != [] {
      FinishedQuiet(m, s2, last1, handled2, fuel - 1);
    }
  }

  // ----- the start of a machine

  /** The states of the regions from `r` on are entered, one after the other. */
  function Entered<E, D>(m: Table<E, D>, c: Config<E, D>, e: E, r: nat): (c': Config<E, D>)
    requires r <= |c.regions|
    ensures Evolves(c, c') && c'.regions == c.regions
    decreases |c.regions| - r
  {
    if r == |c.regions| then c else Entered(m, Hooked(c, m.enter(c.regions[r], e, c.data)), e, r + 1)
  }

  /** `start` of `sm_impl`: the initial event `e` enters the states, and the loops of `process_event` follow. */
  function Started<E, D>(m: Table<E, D>, s: Machine<E, D>, e: E, fuel: nat): Option<Machine<E, D>>
    requires s.Idle()
  {
    match Finished(m, Recorded(s, Entered(m, s.config, e, 0)), s.config.regions[0], true, fuel)
    case None => None
    case Some((s', _)) => Some(s')
  }

  /** A started machine is in the state in which every later call finds and leaves it. */
  lemma StartsQuiet<E, D>(m: Table<E, D>, s: Machine<E, D>, e: E, fuel: nat)
    requires s.Idle() && s.Accounted() && Started(m, s, e, fuel).Some?
    ensures var s' := Started(m, s, e, fuel).value;
      s'.Idle() && s'.config.process == [] && Quiet(m, s') && s'.pushed == s'.taken
  {
    hide Finished, Quiet, Entered;
    var s1 := Recorded(s, Entered(m, s.config, e, 0));
    FinishedQuiet(m, s1, s.config.regions[0], true, fuel);
  }

  // ----- the bound on the rounds only cuts runs off

  lemma {:induction false} DrainedMore<E, D>(m: Table<E, D>, s: Machine<E, D>, it: nat, processed: bool, fuel: nat,
      more: nat)
    requires it <= |s.config.defer| && s.config.deferring && !s.config.again && |s.config.regions| > 0
    requires fuel <= more && Drained(m, s, it, processed, fuel).Some?
    ensures Drained(m, s, it, processed, more) == Drained(m, s, it, processed, fuel)
    decreases fuel
  {
    hide DeferStep, Extends;
    if it < |s.config.defer| {
      var (s1, it1, handled) := DeferStep(m, s, it);
      DrainedMore(m, s1, it1, processed || handled, fuel - 1, more - 1);
    }
  }

  lemma {:induction false} CompletedMore<E, D>(m: Table<E, D>, s: Machine<E, D>, fuel: nat, more: nat)
    requires s.Idle() && fuel <= more && Completed(m, s, fuel).Some?
    ensures Completed(m, s, more) == Completed(m, s, fuel)
    decreases fuel
  {
    var (s1, handled) := Sent(m, s, m.anonymous);
    if handled {
      CompletedMore(m, s1, fuel - 1, more - 1);
    }
  }

  lemma {:induction false} SettledMore<E, D>(m: Table<E, D>, s: Machine<E, D>, last: nat, fuel: nat, more: nat)
    requires s.Idle() && fuel <= more && Settled(m, s, last, fuel).Some?
    ensures Settled(m, s, last, more) == Settled(m, s, last, fuel)
    decreases fuel
  {
    hide Completed, Drained, Extends;
    CompletedMore(m, s, fuel, more);
    var s1 := Completed(m, s, fuel).value;
    var changed := last != s1.config.regions[0];
    if changed {
      DrainedMore(m, s1.(config := s1.config.(deferring := true)), 0, false, fuel, more);
    }
    hide DeferEvents;
    var (s2, processed) := DeferEvents(m, s1, changed, fuel).value;
    if processed {
      SettledMore(m, s2, s1.config.regions[0], fuel - 1, more - 1);
    }
  }

  lemma {:induction false} QueuedMore<E, D>(m: Table<E, D>, s: Machine<E, D>, handled: bool, fuel: nat, more: nat)
    requires s.Idle() && fuel <= more && Queued(m, s, handled, fuel).Some?
    ensures Queued(m, s, handled, more) == Queued(m, s, handled, fuel)
    decreases fuel
  {
    hide TakenFirst, Extends;
    if s.config.process != [] {
      var (s1, h) := TakenFirst(m, s);
      QueuedMore(m, s1, handled && h, fuel - 1, more - 1);
    }
  }

  lemma {:induction false} FinishedMore<E, D>(m: Table<E, D>, s: Machine<E, D>, last: nat, handled: bool, fuel: nat,
      more: nat)
    requires s.Idle() && fuel <= more && Finished(m, s, last, handled, fuel).Some?
    ensures Finished(m, s, last, handled, more) == Finished(m, s, last, handled, fuel)
    decreases fuel
  {
    hide Settled, Queued, Extends;
    SettledMore(m, s, last, fuel, more);
    var (s1, last1) := Settled(m, s, last, fuel).value;
    QueuedMore(m, s1, handled, fuel, more);
    var (s2, handled2) := Queued(m, s1, handled, fuel).value;
    if s1.config.process != [] {
      FinishedMore(m, s2, last1, handled2, fuel - 1, more - 1);
    }
  }

  /** A run that returns does the same under every greater bound. */
  lemma ProcessedMore<E, D>(m: Table<E, D>, s: Machine<E, D>, e: E, fuel: nat, more: nat)
    requires s.Idle() && fuel <= more && Processed(m, s, e, fuel).Some?
    ensures Processed(m, s, e, more) == Processed(m, s, e, fuel)
  {
    hide Finished;
    FinishedMore(m, Sent(m, s, e).0, s.config.regions[0], true, fuel, more);
  }

  // ----- a call that never returns

  /** The machine as constructed, in its first state with empty queues. */
  function RestlessStart(): Machine<nat, nat> {
    Machine(Config([0], 0, [], [], false, false), [], [])
  }

  /** And after the event of kind 1 was handled and deferred. */
  function RestlessNext(): Machine<nat, nat> {
    Machine(Config([1], 0, [1], [], false, false), [], [])
  }

  /** What a client sees: the event, sent to the machine in its first state, never returns. */
  lemma RestlessCallNeverReturns(fuel: nat)
    ensures Processed(Restless(), RestlessStart(), 1, fuel).None?
  {
    var m, s1 := Restless(), RestlessNext();
    RestlessSent();
    RestlessNeverReturns(1, false, fuel);
    assert s1.(config := s1.config.(deferring := true)) == RestlessIn(1);
    hide Sent, Drained, Restless;
    assert Completed(m, s1, fuel) == Some(s1);
    assert Settled(m, s1, 0, fuel).None?;
  }

  lemma RestlessSent()
    ensures Sent(Restless(), RestlessStart(), 1) == (RestlessNext(), true)
    ensures Sent(Restless(), RestlessNext(), Restless().anonymous) == (RestlessNext(), false)
  {
    var m, c, c1 := Restless(), RestlessStart().config, RestlessNext().config;
    assert m.rows[1..][1..] == [];
    assert Candidates(m, 0, 1) == [m.rows[0]];
    assert [State(1)][1..] == [] && ActedAll(c, 1, [Defer]) == c.(defer := [1]);
    assert [0][0 := 1] == [1];
    assert Taken(m, c, 1, 0, m.rows[0]) == c1;
    assert InRegion(m, c, 1, 0) == (c1, true);
    assert FromRegion(m, c1, 1, 1) == (c1, false);
    assert Candidates(m, 1, 0) == [];
    assert FromRegion(m, c1, 0, 1) == (c1, false);
  }

  // ----- runs that return

  /** No anonymous transition is ever enabled, and nothing is pushed to the process queue. */
  ghost predicate Plain<E(!new), D(!new)>(m: Table<E, D>) {
    forall c: Config<E, D>, e: E ::
      Dispatched(m, c, e).0.process == c.process && !Dispatched(m, c, m.anonymous).1
  }

  /** Whenever a drain changes region 0, the queue has become shorter. */
  lemma {:induction false} DrainShrinks<E(!new), D(!new)>(m: Table<E, D>, s: Machine<E, D>, it: nat, processed: bool,
      fuel: nat, n: nat, home: (nat, nat) -> bool)
    requires it <= |s.config.defer| && s.config.deferring && !s.config.again
    requires Lives(s.config, n, home) && Steady(m, n, home) && Plain(m) && Drained(m, s, it, processed, fuel).Some?
    ensures var c := Drained(m, s, it, processed, fuel).value.0.config;
      && c.process == s.config.process && |c.defer| <= |s.config.defer|
      && (c.regions[0] != s.config.regions[0] ==> |c.defer| < |s.config.defer|)
      && Lives(c, n, home)
    decreases fuel
  {
    hide DeferStep, OutcomeOf, Steady, Plain, Without, Extends;
    if it < |s.config.defer| {
      var (s1, it1, handled) := DeferStep(m, s, it);
      StepQueue(m, s, it);
      SteadyStep(m, s, it, n, home);
      PlainStep(m, s, it);
      DrainShrinks(m, s1, it1, processed || handled, fuel - 1, n, home);
    }
  }

  lemma PlainStep<E(!new), D(!new)>(m: Table<E, D>, s: Machine<E, D>, it: nat)
    requires it < |s.config.defer| && s.config.deferring && !s.config.again && |s.config.regions| > 0 && Plain(m)
    ensures DeferStep(m, s, it).0.config.process == s.config.process
    ensures DeferStep(m, s, it).0.config.regions[0] != s.config.regions[0] <==> OutcomeOf(m, s, it).restart
  {
  }

  lemma PlainCompleted<E(!new), D(!new)>(m: Table<E, D>, s: Machine<E, D>, fuel: nat)
    requires s.Idle() && Plain(m)
    ensures Completed(m, s, fuel) == Some(s)
  {
    assert !Dispatched(m, s.config, m.anonymous).1;
  }

  lemma {:induction false} SettledReturns<E(!new), D(!new)>(m: Table<E, D>, s: Machine<E, D>, last: nat, fuel: nat,
      n: nat, home: (nat, nat) -> bool)
    requires s.Idle() && Lives(s.config, n, home) && Steady(m, n, home) && Plain(m)
    requires last != s.config.regions[0] ==> fuel > |s.config.defer| * |s.config.defer| + 2 * |s.config.defer|
    ensures Settled(m, s, last, fuel).Some?
    ensures Settled(m, s, last, fuel).value.0.config.process == s.config.process
    decreases fuel
  {
    hide Completed, Drained, Steady, Plain, Extends;
    PlainCompleted(m, s, fuel);
    if last != s.config.regions[0] {
      var k := |s.config.defer|;
      var s0 := s.(config := s.config.(deferring := true));
      DrainingEnds(m, s0, fuel, n, home);
      DrainShrinks(m, s0, 0, false, fuel, n, home);
      var (s2, processed) := Drained(m, s0, 0, false, fuel).value;
      if processed {
        SmallerBound(|s2.config.defer|, k);
        SettledReturns(m, s2, s.config.regions[0], fuel - 1, n, home);
      }
    }
  }

  lemma SmallerBound(a: nat, n: nat)
    ensures a < n ==> a * a + 2 * a < n * n + 2 * n
  {
  }

  /** With such a table, and deferring again that never changes region 0, `process_event` returns. */
  lemma PlainRunsReturn<E(!new), D(!new)>(m: Table<E, D>, s: Machine<E, D>, e: E, fuel: nat, n: nat,
      home: (nat, nat) -> bool)
    requires s.Idle() && s.config.process == [] && Lives(s.config, n, home) && Steady(m, n, home) && Plain(m)
    requires var k := |Sent(m, s, e).0.config.defer|; fuel > k * k + 2 * k
    ensures Processed(m, s, e, fuel).Some?
  {
    var (s1, handled) := Sent(m, s, e);
    assert Dispatched(m, s.config, e).0.process == s.config.process;
    SettledReturns(m, s1, s.config.regions[0], fuel, n, home);
    hide Settled, Sent;
    assert Finished(m, s1, s.config.regions[0], true, fuel).Some?;
  }
}
