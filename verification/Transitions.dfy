/** Transition tables of `sml.hpp` and what one event does to a flat machine with several regions. */
module Transitions {

  /** One step of a transition's action. */
  datatype Act<!E, !D> = Update(f: (E, D) -> D) | Defer | Process(event: E)

  /** One row of the table; no source stands for any state, no destination for an internal transition. */
  datatype Row<!E, !D> = Row(source: Target, kind: nat, guard: (E, D) -> bool, action: seq<Act<E, D>>, destination: Target)

  datatype Target = Nowhere | State(id: nat)

  /** A table, the kind of each event, the anonymous event, and what leaving and entering a state does:
      new data, and events for the process queue. */
  datatype Table<!E, !D> = Table(rows: seq<Row<E, D>>, kind: E -> nat, anonymous: E,
                                 leave: (nat, E, D) -> (D, seq<E>), enter: (nat, E, D) -> (D, seq<E>))

  /** The mutable part of a machine. */
  datatype Config<E, D> = Config(regions: seq<nat>, data: D, defer: seq<E>, process: seq<E>, deferring: bool, again: bool)

  /** What handling an event may do to the queues and flags: append to the process queue; append to the defer queue,
      or during its processing only raise the flag for deferring again. */
  ghost predicate Evolves<E, D>(c: Config<E, D>, c': Config<E, D>) {
    && |c'.regions| == |c.regions|
    && c.process <= c'.process
    && c'.deferring == c.deferring
    && (if c.deferring then c'.defer == c.defer else c.defer <= c'.defer && c'.again == c.again)
  }

  function Acted<E, D>(c: Config<E, D>, e: E, act: Act<E, D>): (c': Config<E, D>)
    ensures Evolves(c, c') && c'.regions == c.regions
  {
    match act
    case Update(f) => c.(data := f(e, c.data))
    case Defer => if c.deferring then c.(again := true) else c.(defer := c.defer + [e])
    case Process(x) => c.(process := c.process + [x])
  }

  function ActedAll<E, D>(c: Config<E, D>, e: E, acts: seq<Act<E, D>>): (c': Config<E, D>)
    ensures Evolves(c, c') && c'.regions == c.regions
    decreases |acts|
  {
    if acts == [] then c else ActedAll(Acted(c, e, acts[0]), e, acts[1..])
  }

  function Hooked<E, D>(c: Config<E, D>, effect: (D, seq<E>)): (c': Config<E, D>)
    ensures Evolves(c, c') && c'.regions == c.regions
  {
    c.(data := effect.0, process := c.process + effect.1)
  }

  /** A transition whose guard holds: leave the state, change it, act, enter the new state. */
  function Taken<E, D>(m: Table<E, D>, c: Config<E, D>, e: E, r: nat, row: Row<E, D>): (c': Config<E, D>)
    requires r < |c.regions|
    ensures Evolves(c, c')
    ensures c'.regions == if row.destination.Nowhere? then c.regions else c.regions[r := row.destination.id]
  {
    match row.destination
    case Nowhere => ActedAll(c, e, row.action)
    case State(to) =>
      var left := Hooked(c, m.leave(c.regions[r], e, c.data));
      var acted := ActedAll(left.(regions := left.regions[r := to]), e, row.action);
      Hooked(acted, m.enter(to, e, acted.data))
  }

  /** The rows for a source and a kind of event, in the order of the table. */
  function RowsFrom<E, D>(rows: seq<Row<E, D>>, source: Target, kind: nat): seq<Row<E, D>> {
    if rows == [] then []
    else (if rows[0].source == source && rows[0].kind == kind then [rows[0]] else []) + RowsFrom(rows[1..], source, kind)
  }

  /** The rows for a state and an event: those of the state itself before those of any state. */
  function Candidates<E, D>(m: Table<E, D>, state: nat, e: E): seq<Row<E, D>> {
    RowsFrom(m.rows, State(state), m.kind(e)) + RowsFrom(m.rows, Nowhere, m.kind(e))
  }

  /** The first candidate whose guard holds is taken. */
  function FirstTaken<E, D>(m: Table<E, D>, c: Config<E, D>, e: E, r: nat, rows: seq<Row<E, D>>): (x: (Config<E, D>,
      bool))
    requires r < |c.regions|
    ensures Evolves(c, x.0) && (!x.1 ==> x.0 == c)
    ensures forall i | 0 <= i < |c.regions| && i != r :: x.0.regions[i] == c.regions[i]
  {
    if rows == [] then (c, false)
    else if rows[0].guard(e, c.data) then (Taken(m, c, e, r, rows[0]), true)
    else FirstTaken(m, c, e, r, rows[1..])
  }

  function InRegion<E, D>(m: Table<E, D>, c: Config<E, D>, e: E, r: nat): (x: (Config<E, D>, bool))
    requires r < |c.regions|
    ensures Evolves(c, x.0) && (!x.1 ==> x.0 == c)
    ensures forall i | 0 <= i < |c.regions| && i != r :: x.0.regions[i] == c.regions[i]
  {
    FirstTaken(m, c, e, r, Candidates(m, c.regions[r], e))
  }

  /** The regions from `r` on, one after the other; an event that no region handles changes nothing. */
  function FromRegion<E, D>(m: Table<E, D>, c: Config<E, D>, e: E, r: nat): (x: (Config<E, D>, bool))
    requires r <= |c.regions|
    ensures Evolves(c, x.0) && (!x.1 ==> x.0 == c)
    decreases |c.regions| - r
  {
    if r == |c.regions| then (c, false) else
    var (c1, handled1) := InRegion(m, c, e, r);
    var (c2, handled2) := FromRegion(m, c1, e, r + 1);
    (c2, handled1 || handled2)
  }

  function Dispatched<E, D>(m: Table<E, D>, c: Config<E, D>, e: E): (x: (Config<E, D>, bool))
    ensures Evolves(c, x.0) && (!x.1 ==> x.0 == c)
  {
    FromRegion(m, c, e, 0)
  }

  // ----- whether an event is handled depends on the states and the data alone

  lemma {:induction false} UnhandledRows<E, D>(m: Table<E, D>, c: Config<E, D>, c': Config<E, D>, e: E, r: nat,
      rows: seq<Row<E, D>>)
    requires r < |c.regions| && c'.regions == c.regions && c'.data == c.data
    requires !FirstTaken(m, c, e, r, rows).1
    ensures !FirstTaken(m, c', e, r, rows).1
  {
    if rows != [] {
      UnhandledRows(m, c, c', e, r, rows[1..]);
    }
  }

  lemma {:induction false} UnhandledRegions<E, D>(m: Table<E, D>, c: Config<E, D>, c': Config<E, D>, e: E, r: nat)
    requires r <= |c.regions| && c'.regions == c.regions && c'.data == c.data
    requires !FromRegion(m, c, e, r).1
    ensures !FromRegion(m, c', e, r).1
    decreases |c.regions| - r
  {
    if r < |c.regions| {
      UnhandledRows(m, c, c', e, r, Candidates(m, c.regions[r], e));
      UnhandledRegions(m, c, c', e, r + 1);
    }
  }

  // ----- the dispatch policies

  /** `jump_table`: the entry for the state. */
  function JumpTable<E, D>(m: Table<E, D>, states: nat, c: Config<E, D>, e: E, r: nat): (Config<E, D>, bool)
    requires r < |c.regions| && c.regions[r] < states
  {
    InRegion(m, c, e, r)
  }

  /** What dispatching in region `r` does if the state there is `n`. */
  function ForState<E, D>(m: Table<E, D>, c: Config<E, D>, e: E, r: nat, n: nat): (x: (Config<E, D>, bool))
    requires r < |c.regions|
    ensures |x.0.regions| == |c.regions|
  {
    FirstTaken(m, c, e, r, Candidates(m, n, e))
  }

  /** `branch_stm` and `switch_stm`: the states are tried from `n` on. */
  function Branches<E, D>(m: Table<E, D>, states: nat, c: Config<E, D>, e: E, r: nat, n: nat): (Config<E, D>, bool)
    requires r < |c.regions|
    decreases states - n
  {
    if n >= states then (c, false)
    else if c.regions[r] == n then ForState(m, c, e, r, n)
    else Branches(m, states, c, e, r, n + 1)
  }

  /** `fold_expr`: all states are tried, with the current one compared anew each time, until one handles the event. */
  function Fold<E, D>(m: Table<E, D>, states: nat, c: Config<E, D>, e: E, r: nat, n: nat): (Config<E, D>, bool)
    requires r < |c.regions|
    decreases states - n
  {
    if n >= states then (c, false) else
    var (c1, handled) := if c.regions[r] == n then ForState(m, c, e, r, n) else (c, false);
    if handled then (c1, true) else Fold(m, states, c1, e, r, n + 1)
  }

  lemma {:induction false} FoldPast<E, D>(m: Table<E, D>, states: nat, c: Config<E, D>, e: E, r: nat, n: nat)
    requires r < |c.regions| && c.regions[r] < n
    ensures Fold(m, states, c, e, r, n) == (c, false)
    decreases states - n
  {
    if n < states {
      FoldPast(m, states, c, e, r, n + 1);
    }
  }

  /** All policies do the same. */
  lemma {:induction false} PoliciesAgree<E, D>(m: Table<E, D>, states: nat, c: Config<E, D>, e: E, r: nat, n: nat)
    requires r < |c.regions| && n <= c.regions[r] < states
    ensures Branches(m, states, c, e, r, n) == JumpTable(m, states, c, e, r)
    ensures Fold(m, states, c, e, r, n) == JumpTable(m, states, c, e, r)
    decreases states - n
  {
    if c.regions[r] == n {
      FoldPast(m, states, c, e, r, n + 1);
    } else {
      PoliciesAgree(m, states, c, e, r, n + 1);
    }
  }
}
