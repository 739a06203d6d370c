/** The state machine object of `sml.hpp`, whose loops change its states, its queues and its flags in place. */
module StateMachine {
  import opened Entries
  import opened FlatRun
  import opened RunToCompletion
  import opened Transitions

  class Sm<E, D> {
    const table: Table<E, D>
    const currentState: array<nat>
    var data: D
    var defer: seq<E>
    var process: seq<E>
    var deferProcessing: bool
    var deferAgain: bool
    var deferIt: nat
    var deferEnd: nat
    ghost var pushed: seq<E>
    ghost var taken: seq<E>

    /** The machine as a value, with the history of its process queue. */
    ghost function Now(): Machine<E, D>
      reads this, currentState
    {
      Machine(Config(currentState[..], data, defer, process, deferProcessing, deferAgain), pushed, taken)
    }

    constructor (table: Table<E, D>, initial: seq<nat>, data: D)
      requires |initial| > 0
      ensures Now() == Machine(Config(initial, data, [], [], false, false), [], [])
      ensures Now().Idle() && Now().Accounted() && this.table == table && fresh(currentState)
    {
      this.table := table;
      this.data := data;
      currentState := new nat[|initial|](i requires 0 <= i < |initial| => initial[i]);
      defer, process, deferProcessing, deferAgain, deferIt, deferEnd := [], [], false, false, 0, 0;
      pushed, taken := [], [];
      new;
      assert currentState[..] == initial;
    }

    method RunAction(e: E, acts: seq<Act<E, D>>)
      modifies this
      ensures Now() == Recorded(old(Now()), ActedAll(old(Now()).config, e, acts))
      ensures unchanged(`deferIt, `deferEnd)
    {
      ghost var s := Now();
      RecordedAgain(s, s.config, s.config);
      for i := 0 to |acts|
        invariant ActedAll(Now().config, e, acts[i..]) == ActedAll(s.config, e, acts)
        invariant s.config.process <= process && Now() == Recorded(s, Now().config)
        invariant currentState[..] == s.config.regions && unchanged(`deferIt, `deferEnd)
      {
        ghost var c := Now().config;
        match acts[i] {
          case Update(f) => data := f(e, data);
          case Defer =>
            if deferProcessing {
              deferAgain := true;
            } else {
              defer := defer + [e];
            }
          case Process(x) =>
            process := process + [x];
            pushed := pushed + [x];
        }
        assert Now().config == Acted(c, e, acts[i]);
        assert acts[i..][1..] == acts[i + 1..];
      }
      assert acts[|acts|..] == [];
    }

    /** What leaving or entering a state does. */
    method RunHook(effect: (D, seq<E>))
      modifies this
      ensures Now() == Recorded(old(Now()), Hooked(old(Now()).config, effect))
      ensures unchanged(`deferIt, `deferEnd)
    {
      data := effect.0;
      process := process + effect.1;
      pushed := pushed + effect.1;
    }

    /** `execute` of one transition. */
    method Execute(e: E, r: nat, row: Row<E, D>) returns (handled: bool)
      requires r < currentState.Length
      modifies this, currentState
      ensures handled == row.guard(e, old(data))
      ensures Now() == if handled then Recorded(old(Now()), Taken(table, old(Now()).config, e, r, row)) else old(Now())
      ensures unchanged(`deferIt, `deferEnd)
    {
      hide ActedAll, Recorded;
      if !row.guard(e, data) {
        return false;
      }
      ghost var s := Now();
      match row.destination {
        case Nowhere =>
          RunAction(e, row.action);
        case State(to) =>
          RunHook(table.leave(currentState[r], e, data));
          ghost var left := Now().config;
          currentState[r] := to;
          ghost var moved := left.(regions := left.regions[r := to]);
          MovedState(s, left, moved);
          assert Now() == Recorded(s, moved);
          RunAction(e, row.action);
          ghost var acted := Now().config;
          RecordedAgain(s, moved, acted);
          RunHook(table.enter(to, e, data));
          RecordedAgain(s, acted, Now().config);
      }
      return true;
    }

    /** `transitions::execute` for the rows that fit the state of region `r`: the first whose guard holds. */
    method DispatchRegion(e: E, r: nat) returns (handled: bool)
      requires r < currentState.Length
      modifies this, currentState
      ensures var x := InRegion(table, old(Now()).config, e, r); Now() == Recorded(old(Now()), x.0) && handled == x.1
      ensures unchanged(`deferIt, `deferEnd)
    {
      hide Taken, Candidates, Recorded;
      ghost var s := Now();
      var rows := Candidates(table, currentState[r], e);
      RecordedAgain(s, s.config, s.config);
      for i := 0 to |rows|
        invariant Now() == s && unchanged(`deferIt, `deferEnd)
        invariant FirstTaken(table, s.config, e, r, rows[i..]) == FirstTaken(table, s.config, e, r, rows)
      {
        assert rows[i..][0] == rows[i] && rows[i..][1..] == rows[i + 1..];
        handled := Execute(e, r, rows[i]);
        if handled {
          return;
        }
      }
      assert rows[|rows|..] == [];
      return false;
    }

    /** `process_internal_events`: the event goes to every region. */
    method ProcessInternalEvents(e: E) returns (handled: bool)
      modifies this, currentState
      ensures var x := Sent(table, old(Now()), e); Now() == x.0 && handled == x.1
      ensures unchanged(`deferIt, `deferEnd)
    {
      hide InRegion, Recorded;
      ghost var s := Now();
      RecordedAgain(s, s.config, s.config);
      handled := false;
      for r := 0 to currentState.Length
        invariant s.config.process <= process && Now() == Recorded(s, Now().config) && unchanged(`deferIt, `deferEnd)
        invariant var x := FromRegion(table, Now().config, e, r);
          Dispatched(table, s.config, e) == (x.0, handled || x.1)
      {
        ghost var c := Now().config;
        var h := DispatchRegion(e, r);
        RecordedAgain(s, c, Now().config);
        handled := handled || h;
      }
    }

    /** `process_event_no_defer`: an event that is deferred again is passed over, any other leaves the queue. */
    method ProcessEventNoDefer() returns (handled: bool)
      requires deferIt < deferEnd == |defer| && deferProcessing && currentState.Length > 0
      modifies this, currentState
      ensures var s, x := old(Now()), Sent(table, old(Now()), old(defer[deferIt]));
        var kept := x.1 && x.0.config.again;
        && handled == x.1
        && deferIt == (if kept then old(deferIt) + 1 else old(deferIt)) && deferEnd == |defer|
        && Now() == x.0.(config := x.0.config.(defer := if kept then s.config.defer else Without(s.config.defer, old(deferIt))))
    {
      handled := ProcessInternalEvents(defer[deferIt]);
      if handled && deferAgain {
        deferIt := deferIt + 1;
      } else {
        defer := defer[..deferIt] + defer[deferIt + 1..];
        deferEnd := |defer|;
      }
    }

    /** `process_defer_events`: not `done` if the loop would take more than `fuel` rounds. */
    method ProcessDeferEvents(changed: bool, fuel: nat) returns (processed: bool, done: bool)
      requires Now().Idle()
      modifies this, currentState
      ensures match DeferEvents(table, old(Now()), changed, fuel)
        case None => !done
        case Some((s, p)) => done && Now() == s && processed == p
    {
      hide Sent, Without, DeferStep, Extends;
      processed := false;
      if changed {
        deferProcessing, deferAgain := true, false;
        deferIt, deferEnd := 0, |defer|;
        var last := currentState[0];
        var k: nat := fuel;
        ghost var s := Now();
        while deferIt != deferEnd
          invariant deferIt <= deferEnd == |defer| && deferProcessing && !deferAgain
          invariant currentState[0] == last
          invariant Drained(table, s, 0, false, fuel) == Drained(table, Now(), deferIt, processed, k)
          decreases k
        {
          if k == 0 {
            return false, false;
          }
          ghost var before, it := Now(), deferIt;
          var handled := ProcessEventNoDefer();
          processed := processed || handled;
          deferAgain := false;
          if last != currentState[0] {
            deferIt := 0;
            last := currentState[0];
          }
          k := k - 1;
          StepIs(table, before, it, Now(), deferIt);
        }
        deferProcessing := false;
      }
      return processed, true;
    }

    /** The innermost loop of `process_event`. */
    method CompleteAnonymous(fuel: nat) returns (done: bool)
      requires Now().Idle()
      modifies this, currentState
      ensures match Completed(table, old(Now()), fuel)
        case None => !done
        case Some(s) => done && Now() == s
    {
      hide Sent;
      var k: nat := fuel;
      while true
        invariant Now().Idle() && Completed(table, old(Now()), fuel) == Completed(table, Now(), k)
        decreases k
      {
        var handled := ProcessInternalEvents(table.anonymous);
        if !handled {
          return true;
        }
        if k == 0 {
          return false;
        }
        k := k - 1;
      }
    }

    /** The inner loop of `process_event`; `last` is the state of region 0 at the previous comparison. */
    method Settle(previous: nat, fuel: nat) returns (last: nat, done: bool)
      requires Now().Idle()
      modifies this, currentState
      ensures match Settled(table, old(Now()), previous, fuel)
        case None => !done
        case Some((s, l)) => done && Now() == s && last == l
    {
      hide Completed, DeferEvents, Extends;
      last := previous;
      var k: nat := fuel;
      while true
        invariant Now().Idle() && Settled(table, old(Now()), previous, fuel) == Settled(table, Now(), last, k)
        decreases k
      {
        done := CompleteAnonymous(k);
        if !done {
          return;
        }
        var changed := last != currentState[0];
        last := currentState[0];
        var processed;
        processed, done := ProcessDeferEvents(changed, k);
        if !done || !processed {
          return;
        }
        if k == 0 {
          return last, false;
        }
        k := k - 1;
      }
    }

    /** `process_queued_events` */
    method ProcessQueuedEvents(before: bool, fuel: nat) returns (queuedHandled: bool, wasntEmpty: bool, done: bool)
      requires Now().Idle()
      modifies this, currentState
      ensures wasntEmpty == (old(process) != [])
      ensures match Queued(table, old(Now()), before, fuel)
        case None => !done
        case Some((s, h)) => done && Now() == s && queuedHandled == h
    {
      hide Sent, Extends;
      queuedHandled := before;
      wasntEmpty := process != [];
      var k: nat := fuel;
      while process != []
        invariant Now().Idle() && Queued(table, old(Now()), before, fuel) == Queued(table, Now(), queuedHandled, k)
        decreases k
      {
        if k == 0 {
          done := false;
          return;
        }
        ghost var s := Now();
        var handled := ProcessInternalEvents(process[0]);
        queuedHandled := queuedHandled && handled;
        taken := taken + [process[0]];
        process := process[1..];
        k := k - 1;
        assert (Now(), handled) == TakenFirst(table, s);
      }
      done := true;
    }

    /** The outer loop of `process_event`: no result if one of the loops would take more than `fuel` rounds. */
    method Finish(previous: nat, fuel: nat) returns (result: Option<bool>)
      requires Now().Idle()
      modifies this, currentState
      ensures match Finished(table, old(Now()), previous, true, fuel)
        case None => result == None
        case Some((s, h)) => Now() == s && result == Some(h)
    {
      hide Extends, Settled, Queued, Quiet;
      var last, queuedHandled := previous, true;
      var k: nat := fuel;
      while true
        invariant Now().Idle()
        invariant Finished(table, old(Now()), previous, true, fuel) == Finished(table, Now(), last, queuedHandled, k)
        decreases k
      {
        var done, wasntEmpty;
        last, done := Settle(last, k);
        if !done {
          return None;
        }
        queuedHandled, wasntEmpty, done := ProcessQueuedEvents(queuedHandled, k);
        if !done {
          return None;
        }
        if !wasntEmpty {
          return Some(queuedHandled);
        }
        if k == 0 {
          return None;
        }
        k := k - 1;
      }
    }

    /** `process_event` */
    method ProcessEvent(e: E, fuel: nat) returns (result: Option<bool>)
      requires Now().Idle() && Now().Accounted()
      modifies this, currentState
      ensures match Processed(table, old(Now()), e, fuel)
        case None => result == None
        case Some((s, h)) => Now() == s && result == Some(h)
      ensures result.Some? ==> Now().Idle() && process == [] && pushed == taken && Quiet(table, Now())
      ensures result.Some? ==> old(pushed) <= pushed && old(taken) <= taken
      ensures result.Some? ==> exists n: nat :: Reaches(table, Begun(table, old(Now()), e), n, Now(), result.value)
      ensures result == Some(true) ==> Dispatched(table, old(Now()).config, e).1
    {
      hide Sent, Extends, Finished, Quiet, Reaches, Begun, AllHandled, TakenIn;
      if Processed(table, Now(), e, fuel).Some? {
        ghost var n := RunsToCompletion(table, Now(), e, fuel);
      }
      var last := currentState[0];
      var handled := ProcessInternalEvents(e);
      result := Finish(last, fuel);
      if result.Some? {
        result := Some(handled && result.value);
      }
    }

    /** `start`: the initial states are entered with the event `e`, and the loops run as for any event. */
    method Start(e: E, fuel: nat) returns (done: bool)
      requires Now().Idle() && Now().Accounted()
      modifies this, currentState
      ensures match Started(table, old(Now()), e, fuel)
        case None => !done
        case Some(s) => done && Now() == s
      ensures done ==> Now().Idle() && process == [] && pushed == taken && Quiet(table, Now())
    {
      hide Hooked, Recorded, Extends, Finished, Quiet;
      ghost var s := Now();
      if Started(table, s, e, fuel).Some? {
        StartsQuiet(table, s, e, fuel);
      }
      RecordedAgain(s, s.config, s.config);
      for r := 0 to currentState.Length
        invariant s.config.process <= process && Now() == Recorded(s, Now().config)
        invariant currentState[..] == s.config.regions
        invariant Entered(table, s.config, e, 0) == Entered(table, Now().config, e, r)
      {
        ghost var c := Now().config;
        RunHook(table.enter(currentState[r], e, data));
        RecordedAgain(s, c, Now().config);
      }
      var result := Finish(currentState[0], fuel);
      done := result.Some?;
    }
  }

  lemma StepIs<E, D>(m: Table<E, D>, s: Machine<E, D>, it: nat, s': Machine<E, D>, it': nat)
    requires it < |s.config.defer| && s.config.deferring && |s.config.regions| > 0
    requires var x := Sent(m, s, s.config.defer[it]);
      var kept := x.1 && x.0.config.again;
      && s' == x.0.(config := x.0.config.(defer := if kept then s.config.defer else Without(s.config.defer, it), again := false))
      && it' == if x.0.config.regions[0] != s.config.regions[0] then 0 else if kept then it + 1 else it
    ensures (s', it', Sent(m, s, s.config.defer[it]).1) == DeferStep(m, s, it)
  {
  }

  lemma MovedState<E, D>(s: Machine<E, D>, c: Config<E, D>, c': Config<E, D>)
    requires s.config.process <= c.process && c' == c.(regions := c'.regions)
    ensures Recorded(s, c') == Recorded(s, c).(config := c')
  {
  }
}
