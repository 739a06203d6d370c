/**
  The run of an event as one flat transition system: what is dispatched next, and
  with which effect, in terms of single dispatches.  The nested loops do exactly
  what it does.
*/
module FlatRun {
  import opened Entries
  import opened RunToCompletion
  import opened Transitions

  /** Where the run stands: at anonymous transitions, in the defer queue, in the process queue, or done. */
  datatype Phase = Completing | Draining(it: nat, processed: bool) | Unqueueing(any: bool) | Returned

  /** `last` is the state of region 0 when it was last compared, `answer` whether all went well so far. */
  datatype Flat<E, D> = Flat(s: Machine<E, D>, phase: Phase, last: nat, answer: bool)

  function Next<E, D>(m: Table<E, D>, x: Flat<E, D>): (y: Flat<E, D>)
    requires |x.s.config.regions| > 0
    ensures |y.s.config.regions| > 0
  {
    var s, c := x.s, x.s.config;
    match x.phase
    case Returned => x
    case Completing =>
      var (c', handled) := Dispatched(m, c, m.anonymous);
      if handled then x.(s := Recorded(s, c')) else Compared(Recorded(s, c'), x.last, x.answer)
    case Draining(it, processed) =>
      if it >= |c.defer| then
        x.(s := s.(config := c.(deferring := false)), phase := if processed then Completing else Unqueueing(false))
      else
        var (c', handled) := Dispatched(m, c, c.defer[it]);
        var kept := handled && c'.again;
        var defer := if kept then c.defer else c.defer[..it] + c.defer[it + 1..];
        var it' := if c'.regions[0] != c.regions[0] then 0 else if kept then it + 1 else it;
        x.(s := Recorded(s, c').(config := c'.(defer := defer, again := false)),
           phase := Draining(it', processed || handled))
    case Unqueueing(any) =>
      if c.process == [] then x.(phase := if any then Completing else Returned)
      else
        var (c', handled) := Dispatched(m, c, c.process[0]);
        var s' := Recorded(s, c');
        Flat(Machine(c'.(process := c'.process[1..]), s'.pushed, s.taken + [c.process[0]]), Unqueueing(true), x.last,
             x.answer && handled)
  }

  /** Without anonymous transitions left, the deferred events get their turn if region 0 has changed its state. */
  function Compared<E, D>(s: Machine<E, D>, last: nat, answer: bool): (x: Flat<E, D>)
    requires |s.config.regions| > 0
    ensures |x.s.config.regions| > 0
  {
    var now := s.config.regions[0];
    if now != last then Flat(s.(config := s.config.(deferring := true)), Draining(0, false), now, answer)
    else Flat(s, Unqueueing(false), now, answer)
  }

  function Steps<E, D>(m: Table<E, D>, x: Flat<E, D>, n: nat): (y: Flat<E, D>)
    requires |x.s.config.regions| > 0
    ensures |y.s.config.regions| > 0
    decreases n
  {
    if n == 0 then x else Steps(m, Next(m, x), n - 1)
  }

  /** Right after the event itself was dispatched. */
  function Begun<E, D>(m: Table<E, D>, s: Machine<E, D>, e: E): (x: Flat<E, D>)
    requires |s.config.regions| > 0
    ensures |x.s.config.regions| > 0
  {
    var (c, handled) := Dispatched(m, s.config, e);
    Flat(Recorded(s, c), Completing, s.config.regions[0], handled)
  }

  lemma {:induction false} StepsSum<E, D>(m: Table<E, D>, x: Flat<E, D>, a: nat, b: nat)
    requires |x.s.config.regions| > 0
    ensures Steps(m, x, a + b) == Steps(m, Steps(m, x, a), b)
    decreases a
  {
    hide Next;
    if a > 0 {
      StepsSum(m, Next(m, x), a - 1, b);
    }
  }

  lemma OneStep<E, D>(m: Table<E, D>, x: Flat<E, D>, n: nat)
    requires |x.s.config.regions| > 0
    ensures Steps(m, x, n + 1) == Steps(m, Next(m, x), n)
    ensures Steps(m, x, 0) == x && Steps(m, x, 1) == Next(m, x)
  {
    hide Next;
    assert Steps(m, Next(m, x), 0) == Next(m, x);
  }

  // ----- the loops do what the steps do

  lemma {:induction false} CompletedFlat<E, D>(m: Table<E, D>, s: Machine<E, D>, last: nat, a: bool,
      fuel: nat) returns (n: nat)
    requires s.Idle() && Completed(m, s, fuel).Some?
    ensures Steps(m, Flat(s, Completing, last, a), n) == Compared(Completed(m, s, fuel).value, last, a)
    decreases fuel
  {
    hide Steps, Compared;
    var x := Flat(s, Completing, last, a);
    var (s1, handled) := Sent(m, s, m.anonymous);
    if handled {
      n := CompletedFlat(m, s1, last, a, fuel - 1);
      n := n + 1;
      OneStep(m, x, n - 1);
    } else {
      n := 1;
      OneStep(m, x, 0);
    }
  }

  lemma DrainNext<E, D>(m: Table<E, D>, s: Machine<E, D>, it: nat, processed: bool, last: nat, a: bool)
    requires it < |s.config.defer| && s.config.deferring && |s.config.regions| > 0
    ensures var (s1, it1, handled) := DeferStep(m, s, it);
      Next(m, Flat(s, Draining(it, processed), last, a)) == Flat(s1, Draining(it1, processed || handled), last, a)
  {
  }

  lemma {:induction false} DrainedFlat<E, D>(m: Table<E, D>, s: Machine<E, D>, it: nat, processed: bool, last: nat,
      a: bool, fuel: nat) returns (n: nat)
    requires it <= |s.config.defer| && s.config.deferring && !s.config.again && |s.config.regions| > 0
    requires Drained(m, s, it, processed, fuel).Some?
    ensures var (s1, p) := Drained(m, s, it, processed, fuel).value;
      Steps(m, Flat(s, Draining(it, processed), last, a), n) == Flat(s1, if p then Completing else Unqueueing(false), last, a)
    decreases fuel
  {
    hide Steps, DeferStep, Extends;
    var x := Flat(s, Draining(it, processed), last, a);
    if it == |s.config.defer| {
      n := 1;
      OneStep(m, x, 0);
    } else {
      DrainNext(m, s, it, processed, last, a);
      hide Next;
      var (s1, it1, handled) := DeferStep(m, s, it);
      n := DrainedFlat(m, s1, it1, processed || handled, last, a, fuel - 1);
      n := n + 1;
      OneStep(m, x, n - 1);
    }
  }

  lemma {:induction false} SettledFlat<E, D>(m: Table<E, D>, s: Machine<E, D>, last: nat, a: bool,
      fuel: nat) returns (n: nat)
    requires s.Idle() && Settled(m, s, last, fuel).Some?
    ensures var (s1, last1) := Settled(m, s, last, fuel).value;
      Steps(m, Flat(s, Completing, last, a), n) == Flat(s1, Unqueueing(false), last1, a)
    decreases fuel
  {
    hide Steps, Next, Completed, Drained, Extends;
    var x := Flat(s, Completing, last, a);
    n := CompletedFlat(m, s, last, a, fuel);
    var s1 := Completed(m, s, fuel).value;
    var now := s1.config.regions[0];
    if now != last {
      var s1' := s1.(config := s1.config.(deferring := true));
      var k := DrainedFlat(m, s1', 0, false, now, a, fuel);
      StepsSum(m, x, n, k);
      n := n + k;
      var (s2, processed) := Drained(m, s1', 0, false, fuel).value;
      if processed {
        k := SettledFlat(m, s2, now, a, fuel - 1);
        StepsSum(m, x, n, k);
        n := n + k;
      }
    }
  }

  lemma {:induction false} QueuedFlat<E, D>(m: Table<E, D>, s: Machine<E, D>, any: bool, last: nat, a: bool, handled: bool,
      fuel: nat) returns (n: nat)
    requires s.Idle() && Queued(m, s, handled, fuel).Some?
    ensures var (s1, h) := Queued(m, s, handled, fuel).value;
      Steps(m, Flat(s, Unqueueing(any), last, a && handled), n) ==
        Flat(s1, if any || s.config.process != [] then Completing else Returned, last, a && h)
    decreases fuel
  {
    hide Steps, Extends;
    var x := Flat(s, Unqueueing(any), last, a && handled);
    if s.config.process == [] {
      n := 1;
      OneStep(m, x, 0);
    } else {
      var (s1, h) := TakenFirst(m, s);
      assert Next(m, x) == Flat(s1, Unqueueing(true), last, a && (handled && h));
      hide Next, TakenFirst;
      n := QueuedFlat(m, s1, true, last, a, handled && h, fuel - 1);
      n := n + 1;
      OneStep(m, x, n - 1);
    }
  }

  lemma {:induction false} FinishedFlat<E, D>(m: Table<E, D>, s: Machine<E, D>, last: nat, a: bool, handled: bool,
      fuel: nat) returns (n: nat)
    requires s.Idle() && Finished(m, s, last, handled, fuel).Some?
    ensures var (s1, h) := Finished(m, s, last, handled, fuel).value;
      var y := Steps(m, Flat(s, Completing, last, a && handled), n);
      y.phase == Returned && y.s == s1 && y.answer == (a && h)
    decreases fuel
  {
    hide Steps, Next, Settled, Queued, Extends;
    var x := Flat(s, Completing, last, a && handled);
    n := SettledFlat(m, s, last, a && handled, fuel);
    var (s1, last1) := Settled(m, s, last, fuel).value;
    var k := QueuedFlat(m, s1, false, last1, a, handled, fuel);
    StepsSum(m, x, n, k);
    n := n + k;
    var (s2, handled2) := Queued(m, s1, handled, fuel).value;
    if s1.config.process != [] {
      k := FinishedFlat(m, s2, last1, a, handled2, fuel - 1);
      StepsSum(m, x, n, k);
      n := n + k;
    }
  }

  // ----- and return where the steps return

  lemma {:induction false} CompletedBack<E, D>(m: Table<E, D>, s: Machine<E, D>, last: nat, a: bool,
      n: nat) returns (k: nat)
    requires s.Idle() && Steps(m, Flat(s, Completing, last, a), n).phase.Returned?
    ensures k < n && Completed(m, s, n).Some?
    ensures Steps(m, Compared(Completed(m, s, n).value, last, a), k).phase.Returned?
    decreases n
  {
    hide Steps, Compared;
    var x := Flat(s, Completing, last, a);
    OneStep(m, x, 0);
    OneStep(m, x, n - 1);
    var (s1, handled) := Sent(m, s, m.anonymous);
    if handled {
      k := CompletedBack(m, s1, last, a, n - 1);
    } else {
      k := n - 1;
    }
  }

  lemma {:induction false} DrainedBack<E, D>(m: Table<E, D>, s: Machine<E, D>, it: nat, processed: bool, last: nat,
      a: bool, n: nat) returns (k: nat)
    requires it <= |s.config.defer| && s.config.deferring && !s.config.again && |s.config.regions| > 0
    requires Steps(m, Flat(s, Draining(it, processed), last, a), n).phase.Returned?
    ensures k < n && Drained(m, s, it, processed, n).Some?
    ensures var (s1, p) := Drained(m, s, it, processed, n).value;
      Steps(m, Flat(s1, if p then Completing else Unqueueing(false), last, a), k).phase.Returned?
    decreases n
  {
    hide Steps, DeferStep, Extends;
    var x := Flat(s, Draining(it, processed), last, a);
    OneStep(m, x, 0);
    OneStep(m, x, n - 1);
    if it == |s.config.defer| {
      k := n - 1;
    } else {
      DrainNext(m, s, it, processed, last, a);
      hide Next;
      var (s1, it1, handled) := DeferStep(m, s, it);
      k := DrainedBack(m, s1, it1, processed || handled, last, a, n - 1);
    }
  }

  lemma {:induction false} SettledBack<E, D>(m: Table<E, D>, s: Machine<E, D>, last: nat, a: bool,
      n: nat) returns (k: nat)
    requires s.Idle() && Steps(m, Flat(s, Completing, last, a), n).phase.Returned?
    ensures k < n && Settled(m, s, last, n).Some?
    ensures var (s1, last1) := Settled(m, s, last, n).value;
      Steps(m, Flat(s1, Unqueueing(false), last1, a), k).phase.Returned?
    decreases n
  {
    hide Steps, Next, Completed, Drained, Extends;
    k := CompletedBack(m, s, last, a, n);
    var s1 := Completed(m, s, n).value;
    var now := s1.config.regions[0];
    if now != last {
      var s1' := s1.(config := s1.config.(deferring := true));
      var j := k;
      k := DrainedBack(m, s1', 0, false, now, a, j);
      DrainedMore(m, s1', 0, false, j, n);
      var (s2, processed) := Drained(m, s1', 0, false, n).value;
      if processed {
        j := k;
        k := SettledBack(m, s2, now, a, j);
        SettledMore(m, s2, now, j, n - 1);
      }
    }
  }

  lemma {:induction false} QueuedBack<E, D>(m: Table<E, D>, s: Machine<E, D>, any: bool, last: nat, a: bool, handled: bool,
      n: nat) returns (k: nat)
    requires s.Idle() && Steps(m, Flat(s, Unqueueing(any), last, a && handled), n).phase.Returned?
    ensures k < n && Queued(m, s, handled, n).Some?
    ensures var (s1, h) := Queued(m, s, handled, n).value;
      Steps(m, Flat(s1, if any || s.config.process != [] then Completing else Returned, last, a && h), k).phase.Returned?
    decreases n
  {
    hide Steps, Extends;
    var x := Flat(s, Unqueueing(any), last, a && handled);
    OneStep(m, x, 0);
    OneStep(m, x, n - 1);
    if s.config.process == [] {
      k := n - 1;
    } else {
      var (s1, h) := TakenFirst(m, s);
      assert Next(m, x) == Flat(s1, Unqueueing(true), last, a && (handled && h));
      hide Next, TakenFirst;
      k := QueuedBack(m, s1, true, last, a, handled && h, n - 1);
    }
  }

  lemma {:induction false} FinishedBack<E, D>(m: Table<E, D>, s: Machine<E, D>, last: nat, a: bool, handled: bool, n: nat)
    requires s.Idle() && Steps(m, Flat(s, Completing, last, a && handled), n).phase.Returned?
    ensures Finished(m, s, last, handled, n).Some?
    decreases n
  {
    hide Steps, Next, Settled, Queued, Extends;
    var k := SettledBack(m, s, last, a && handled, n);
    var (s1, last1) := Settled(m, s, last, n).value;
    var j := QueuedBack(m, s1, false, last1, a, handled, k);
    QueuedMore(m, s1, handled, k, n);
    var (s2, handled2) := Queued(m, s1, handled, n).value;
    if s1.config.process != [] {
      FinishedBack(m, s2, last1, a, handled2, j);
      FinishedMore(m, s2, last1, handled2, j, n - 1);
    }
  }

  // ----- the run as a whole

  /** After `n` steps the run is over, with machine `s` and answer `a`. */
  ghost predicate Reaches<E, D>(m: Table<E, D>, x: Flat<E, D>, n: nat, s: Machine<E, D>, a: bool) {
    |x.s.config.regions| > 0 && Steps(m, x, n).phase.Returned? && Steps(m, x, n).s == s && Steps(m, x, n).answer == a
  }

  /** Once over, a run stays as it is, so two ends of a run are the same. */
  lemma {:induction false} StaysReturned<E, D>(m: Table<E, D>, x: Flat<E, D>, n: nat)
    requires |x.s.config.regions| > 0 && x.phase.Returned?
    ensures Steps(m, x, n) == x
    decreases n
  {
    if n > 0 {
      StaysReturned(m, x, n - 1);
    }
  }

  lemma SameEnd<E, D>(m: Table<E, D>, x: Flat<E, D>, n: nat, k: nat)
    requires |x.s.config.regions| > 0 && n <= k && Steps(m, x, n).phase.Returned?
    ensures Steps(m, x, k) == Steps(m, x, n)
  {
    hide Steps, Next;
    StepsSum(m, x, n, k - n);
    StaysReturned(m, Steps(m, x, n), k - n);
  }

  lemma ProcessedFlat<E, D>(m: Table<E, D>, s: Machine<E, D>, e: E, fuel: nat) returns (n: nat)
    requires s.Idle() && Processed(m, s, e, fuel).Some?
    ensures var (s', a) := Processed(m, s, e, fuel).value; Reaches(m, Begun(m, s, e), n, s', a)
  {
    hide Steps, Finished, Next;
    var (s1, handled) := Sent(m, s, e);
    n := FinishedFlat(m, s1, s.config.regions[0], handled, true, fuel);
  }

  /** `process_event` returns exactly where the steps come to an end, and with what they end with. */
  lemma RunExactly<E, D>(m: Table<E, D>, s: Machine<E, D>, e: E, s': Machine<E, D>, a: bool)
    requires s.Idle()
    ensures (exists fuel: nat :: Processed(m, s, e, fuel) == Some((s', a)))
       <==> (exists n: nat :: Reaches(m, Begun(m, s, e), n, s', a))
  {
    hide Steps, Finished, Next;
    if fuel: nat :| Processed(m, s, e, fuel) == Some((s', a)) {
      var n := ProcessedFlat(m, s, e, fuel);
    }
    if n: nat :| Reaches(m, Begun(m, s, e), n, s', a) {
      var (s1, handled) := Sent(m, s, e);
      FinishedBack(m, s1, s.config.regions[0], handled, true, n);
      var k := ProcessedFlat(m, s, e, n);
      if n <= k {
        SameEnd(m, Begun(m, s, e), n, k);
      } else {
        SameEnd(m, Begun(m, s, e), k, n);
      }
      assert Processed(m, s, e, n) == Some((s', a));
    }
  }

  // ----- what happens to queued events, and what is answered

  /** The next step takes an event from the process queue. */
  predicate Takes<E, D>(x: Flat<E, D>) {
    x.phase.Unqueueing? && x.s.config.process != []
  }

  function Front<E, D>(m: Table<E, D>, x: Flat<E, D>): (Config<E, D>, bool)
    requires Takes(x)
  {
    Dispatched(m, x.s.config, x.s.config.process[0])
  }

  /** The event is dispatched, then removed and logged; other steps log nothing and do not change the answer. */
  lemma TakesOne<E, D>(m: Table<E, D>, x: Flat<E, D>)
    requires |x.s.config.regions| > 0
    ensures var y := Next(m, x);
      if Takes(x) then
        && Front(m, x).0.process != [] && y.s.config == Front(m, x).0.(process := Front(m, x).0.process[1..])
        && y.s.taken == x.s.taken + [x.s.config.process[0]] && y.answer == (x.answer && Front(m, x).1)
      else
        y.s.taken == x.s.taken && y.answer == x.answer
  {
  }

  /** The events taken in the first `n` steps. */
  function TakenIn<E, D>(m: Table<E, D>, x: Flat<E, D>, n: nat): seq<E>
    requires |x.s.config.regions| > 0
  {
    if n == 0 then [] else
      var y := Steps(m, x, n - 1);
      TakenIn(m, x, n - 1) + if Takes(y) then [y.s.config.process[0]] else []
  }

  ghost predicate AllHandled<E, D>(m: Table<E, D>, x: Flat<E, D>, n: nat)
    requires |x.s.config.regions| > 0
  {
    forall i: nat | i < n && Takes(Steps(m, x, i)) :: Front(m, Steps(m, x, i)).1
  }

  lemma {:induction false} LogAndAnswer<E, D>(m: Table<E, D>, x: Flat<E, D>, n: nat)
    requires |x.s.config.regions| > 0
    ensures Steps(m, x, n).s.taken == x.s.taken + TakenIn(m, x, n)
    ensures Steps(m, x, n).answer <==> x.answer && AllHandled(m, x, n)
    decreases n
  {
    hide Next, Front;
    if n > 0 {
      LogAndAnswer(m, x, n - 1);
      StepsSum(m, x, n - 1, 1);
      var y := Steps(m, x, n - 1);
      OneStep(m, y, 0);
      TakesOne(m, y);
    }
  }

  /** The answer is that the event itself and every event taken from the process queue was handled. */
  lemma AnswerExactly<E, D>(m: Table<E, D>, s: Machine<E, D>, e: E, fuel: nat) returns (n: nat)
    requires s.Idle() && Processed(m, s, e, fuel).Some?
    ensures var (s', a) := Processed(m, s, e, fuel).value;
      && Reaches(m, Begun(m, s, e), n, s', a)
      && s'.taken == s.taken + TakenIn(m, Begun(m, s, e), n)
      && (a <==> Dispatched(m, s.config, e).1 && AllHandled(m, Begun(m, s, e), n))
  {
    hide Steps, Next, Processed, TakenIn, AllHandled;
    n := ProcessedFlat(m, s, e, fuel);
    LogAndAnswer(m, Begun(m, s, e), n);
  }

  /**
    On return the process queue is empty, no anonymous transition is enabled, and
    everything pushed to the queue has been taken from its front, once and in
    order, and been dispatched.
  */
  lemma RunsToCompletion<E, D>(m: Table<E, D>, s: Machine<E, D>, e: E, fuel: nat) returns (n: nat)
    requires s.Idle() && s.Accounted() && Processed(m, s, e, fuel).Some?
    ensures var (s', a) := Processed(m, s, e, fuel).value;
      && s'.Idle() && s'.config.process == [] && Quiet(m, s')
      && s'.pushed == s'.taken == s.taken + TakenIn(m, Begun(m, s, e), n) && s.pushed <= s'.pushed
      && Reaches(m, Begun(m, s, e), n, s', a)
      && (a <==> Dispatched(m, s.config, e).1 && AllHandled(m, Begun(m, s, e), n))
  {
    hide Finished, Quiet, Steps, Next, TakenIn, AllHandled;
    n := AnswerExactly(m, s, e, fuel);
    FinishedQuiet(m, Sent(m, s, e).0, s.config.regions[0], true, fuel);
  }

  // ----- the start

  /** The configuration once the states of the first `r` regions were entered, one after the other. */
  function Entering<E, D>(m: Table<E, D>, c: Config<E, D>, e: E, r: nat): (c': Config<E, D>)
    requires r <= |c.regions|
    ensures c'.regions == c.regions
  {
    if r == 0 then c else
      var before := Entering(m, c, e, r - 1);
      var (data, events) := m.enter(c.regions[r - 1], e, before.data);
      before.(data := data, process := before.process + events)
  }

  lemma {:induction false} EnteredFrom<E, D>(m: Table<E, D>, c: Config<E, D>, e: E, r: nat)
    requires r <= |c.regions|
    ensures Entered(m, Entering(m, c, e, r), e, r) == Entering(m, c, e, |c.regions|)
    decreases |c.regions| - r
  {
    if r < |c.regions| {
      EnteredFrom(m, c, e, r + 1);
    }
  }

  /** Starting enters all initial states in order, and goes on like an event that was handled. */
  lemma StartExactly<E, D>(m: Table<E, D>, s: Machine<E, D>, e: E, fuel: nat) returns (n: nat)
    requires s.Idle() && Started(m, s, e, fuel).Some?
    ensures var c := Entering(m, s.config, e, |s.config.regions|);
      && s.config.process <= c.process
      && Reaches(m, Flat(Recorded(s, c), Completing, s.config.regions[0], true), n, Started(m, s, e, fuel).value,
                 Steps(m, Flat(Recorded(s, c), Completing, s.config.regions[0], true), n).answer)
  {
    hide Steps, Finished, Next;
    EnteredFrom(m, s.config, e, 0);
    n := FinishedFlat(m, Recorded(s, Entered(m, s.config, e, 0)), s.config.regions[0], true, true, fuel);
  }
}
