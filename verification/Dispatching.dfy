/** What dispatching an event does, said over the rows of the table and the actions of a row, without the loops. */
module Dispatching {
  import opened Transitions

  // ----- which row is taken

  /** Row `i` is the one that a region in `state` takes: the first whose guard holds, of its own rows before the others. */
  ghost predicate Chosen<E, D>(m: Table<E, D>, state: nat, e: E, d: D, i: nat) {
    && i < |m.rows| && (m.rows[i].source == State(state) || m.rows[i].source == Nowhere)
    && Enabled(m, m.rows[i].source, e, d, i)
    && (forall j | 0 <= j < i :: !Enabled(m, m.rows[i].source, e, d, j))
    && (m.rows[i].source == Nowhere ==> forall j | 0 <= j < |m.rows| :: !Enabled(m, State(state), e, d, j))
  }

  /** Row `i` is for this source and this kind of event, and its guard holds. */
  predicate Enabled<E, D>(m: Table<E, D>, source: Target, e: E, d: D, i: nat)
    requires i < |m.rows|
  {
    m.rows[i].source == source && m.rows[i].kind == m.kind(e) && m.rows[i].guard(e, d)
  }

  /** The rows of one source come to the first that is enabled, if there is one; otherwise the `others` decide. */
  lemma {:induction false} FirstEnabled<E, D>(m: Table<E, D>, c: Config<E, D>, e: E, r: nat, source: Target, k: nat,
      others: seq<Row<E, D>>) returns (i: nat)
    requires r < |c.regions| && k <= |m.rows|
    ensures k <= i <= |m.rows| && forall j | k <= j < i :: !Enabled(m, source, e, c.data, j)
    ensures i < |m.rows| ==> Enabled(m, source, e, c.data, i)
    ensures FirstTaken(m, c, e, r, RowsFrom(m.rows[k..], source, m.kind(e)) + others) ==
      if i < |m.rows| then (Taken(m, c, e, r, m.rows[i]), true) else FirstTaken(m, c, e, r, others)
    decreases |m.rows| - k
  {
    hide Taken;
    var rows := RowsFrom(m.rows[k..], source, m.kind(e));
    if k == |m.rows| {
      assert rows + others == others;
      i := k;
    } else {
      assert m.rows[k..][0] == m.rows[k] && m.rows[k..][1..] == m.rows[k + 1..];
      var rest := RowsFrom(m.rows[k + 1..], source, m.kind(e));
      i := FirstEnabled(m, c, e, r, source, k + 1, others);
      if m.rows[k].source == source && m.rows[k].kind == m.kind(e) {
        assert rows + others == [m.rows[k]] + (rest + others);
        i := if m.rows[k].guard(e, c.data) then k else i;
      } else {
        assert rows == rest;
      }
    }
  }

  lemma ChosenOnce<E, D>(m: Table<E, D>, state: nat, e: E, d: D, i: nat, j: nat)
    requires Chosen(m, state, e, d, i) && Chosen(m, state, e, d, j)
    ensures i == j
  {
  }

  /** A region handles an event exactly if a row is chosen, and does what that row says. */
  lemma RegionExactly<E, D>(m: Table<E, D>, c: Config<E, D>, e: E, r: nat)
    requires r < |c.regions|
    ensures InRegion(m, c, e, r).1 <==> exists i: nat :: Chosen(m, c.regions[r], e, c.data, i)
    ensures forall i: nat | Chosen(m, c.regions[r], e, c.data, i) ::
      InRegion(m, c, e, r).0 == Taken(m, c, e, r, m.rows[i])
  {
    hide Taken, FirstTaken, RowsFrom;
    var own := State(c.regions[r]);
    var others := RowsFrom(m.rows, Nowhere, m.kind(e));
    assert m.rows[0..] == m.rows && others + [] == others;
    var i := FirstEnabled(m, c, e, r, own, 0, others);
    var j := FirstEnabled(m, c, e, r, Nowhere, 0, []);
    NoRows(m, c, e, r);
    var k := if i < |m.rows| then i else j;
    assert k < |m.rows| ==> Chosen(m, c.regions[r], e, c.data, k);
    forall i': nat | Chosen(m, c.regions[r], e, c.data, i')
      ensures InRegion(m, c, e, r).0 == Taken(m, c, e, r, m.rows[i'])
    {
      ChosenOnce(m, c.regions[r], e, c.data, i', k);
    }
  }

  lemma NoRows<E, D>(m: Table<E, D>, c: Config<E, D>, e: E, r: nat)
    requires r < |c.regions|
    ensures FirstTaken(m, c, e, r, []) == (c, false)
  {
  }

  /** The configuration once the first `r` regions got the event, each as the one before left it. */
  function Through<E, D>(m: Table<E, D>, c: Config<E, D>, e: E, r: nat): (c': Config<E, D>)
    requires r <= |c.regions|
    ensures |c'.regions| == |c.regions|
  {
    if r == 0 then c else InRegion(m, Through(m, c, e, r - 1), e, r - 1).0
  }

  ghost predicate HandledBy<E, D>(m: Table<E, D>, c: Config<E, D>, e: E, r: nat) {
    r < |c.regions| && InRegion(m, Through(m, c, e, r), e, r).1
  }

  lemma {:induction false} RegionsFrom<E, D>(m: Table<E, D>, c: Config<E, D>, e: E, r: nat)
    requires r <= |c.regions|
    ensures FromRegion(m, Through(m, c, e, r), e, r).0 == Through(m, c, e, |c.regions|)
    ensures FromRegion(m, Through(m, c, e, r), e, r).1 <==> exists k: nat :: r <= k && HandledBy(m, c, e, k)
    decreases |c.regions| - r
  {
    hide InRegion;
    if r < |c.regions| {
      RegionsFrom(m, c, e, r + 1);
      assert Through(m, c, e, r + 1) == InRegion(m, Through(m, c, e, r), e, r).0;
      assert HandledBy(m, c, e, r) <==> InRegion(m, Through(m, c, e, r), e, r).1;
      if k: nat :| r <= k && HandledBy(m, c, e, k) {
        assert k == r || r + 1 <= k;
      }
    }
  }

  /** All regions get the event, in order, and it is handled exactly if one of them handles it. */
  lemma RegionsExactly<E, D>(m: Table<E, D>, c: Config<E, D>, e: E)
    ensures Dispatched(m, c, e).0 == Through(m, c, e, |c.regions|)
    ensures Dispatched(m, c, e).1 <==> exists r: nat :: HandledBy(m, c, e, r)
  {
    hide InRegion, FromRegion, HandledBy;
    RegionsFrom(m, c, e, 0);
  }

  // ----- what a row does

  /** The data after the updates among the actions, in order. */
  function Updated<E, D>(e: E, d: D, acts: seq<Act<E, D>>): D
    decreases |acts|
  {
    if acts == [] then d else
      var before := Updated(e, d, acts[..|acts| - 1]);
      match acts[|acts| - 1]
      case Update(f) => f(e, before)
      case _ => before
  }

  /** The events that the actions push, in order. */
  function Pushed<E, D>(acts: seq<Act<E, D>>): seq<E>
    decreases |acts|
  {
    if acts == [] then [] else
      Pushed(acts[..|acts| - 1]) + if acts[|acts| - 1].Process? then [acts[|acts| - 1].event] else []
  }

  /** How many of the actions defer. */
  function Deferrals<E, D>(acts: seq<Act<E, D>>): nat
    decreases |acts|
  {
    if acts == [] then 0 else Deferrals(acts[..|acts| - 1]) + if acts[|acts| - 1].Defer? then 1 else 0
  }

  function Copies<E>(e: E, n: nat): seq<E> {
    seq(n, i => e)
  }

  lemma {:induction false} DeferralsSome<E, D>(acts: seq<Act<E, D>>)
    ensures Deferrals(acts) > 0 <==> exists i | 0 <= i < |acts| :: acts[i].Defer?
    decreases |acts|
  {
    if acts != [] {
      DeferralsSome(acts[..|acts| - 1]);
      if i :| 0 <= i < |acts| && acts[i].Defer? {
        assert i < |acts| - 1 ==> acts[..|acts| - 1][i].Defer?;
      }
    }
  }

  lemma {:induction false} ActedLast<E, D>(c: Config<E, D>, e: E, acts: seq<Act<E, D>>)
    requires acts != []
    ensures ActedAll(c, e, acts) == Acted(ActedAll(c, e, acts[..|acts| - 1]), e, acts[|acts| - 1])
    decreases |acts|
  {
    hide Acted;
    if |acts| == 1 {
      assert acts[1..] == [] && acts[..0] == [];
    } else {
      assert acts[1..][..|acts| - 2] == acts[..|acts| - 1][1..];
      ActedLast(Acted(c, e, acts[0]), e, acts[1..]);
    }
  }

  lemma {:induction false} ActedExactly<E, D>(c: Config<E, D>, e: E, acts: seq<Act<E, D>>)
    ensures var c', n := ActedAll(c, e, acts), Deferrals(acts);
      && c'.regions == c.regions && c'.deferring == c.deferring
      && c'.data == Updated(e, c.data, acts) && c'.process == c.process + Pushed(acts)
      && c'.defer == (if c.deferring then c.defer else c.defer + Copies(e, n))
      && c'.again == (c.again || (c.deferring && n > 0))
    decreases |acts|
  {
    if acts != [] {
      var last := |acts| - 1;
      ActedLast(c, e, acts);
      ActedExactly(c, e, acts[..last]);
      var n := Deferrals(acts[..last]);
      assert Copies(e, n + 1) == Copies(e, n) + [e];
    }
  }

  /** What a taken row leaves behind: the exit hook, the actions, and the entry hook see and extend it in this order. */
  lemma TakenExactly<E, D>(m: Table<E, D>, c: Config<E, D>, e: E, r: nat, row: Row<E, D>)
    requires r < |c.regions|
    ensures var c', n := Taken(m, c, e, r, row), Deferrals(row.action);
      && c'.deferring == c.deferring
      && c'.defer == (if c.deferring then c.defer else c.defer + Copies(e, n))
      && c'.again == (c.again || (c.deferring && n > 0))
    ensures var c' := Taken(m, c, e, r, row);
      match row.destination
      case Nowhere =>
        && c'.regions == c.regions && c'.data == Updated(e, c.data, row.action)
        && c'.process == c.process + Pushed(row.action)
      case State(to) =>
        var (left, exitEvents) := m.leave(c.regions[r], e, c.data);
        var (entered, entryEvents) := m.enter(to, e, Updated(e, left, row.action));
        && c'.regions == c.regions[r := to] && c'.data == entered
        && c'.process == c.process + exitEvents + Pushed(row.action) + entryEvents
  {
    hide ActedAll, Updated, Pushed, Deferrals;
    match row.destination
    case Nowhere => ActedExactly(c, e, row.action);
    case State(to) =>
      var left := Hooked(c, m.leave(c.regions[r], e, c.data));
      ActedExactly(left.(regions := left.regions[r := to]), e, row.action);
  }

  // ----- the order of the effects, as labels that they leave in the data

  datatype Label = Exit(state: nat) | Entry(state: nat) | Did(action: nat)

  /** The labels of the updates among the actions, in order. */
  function Labels<E, D>(acts: seq<Act<E, D>>): seq<Label>
    decreases |acts|
  {
    if acts == [] then [] else
      Labels(acts[..|acts| - 1]) + if acts[|acts| - 1].Update? then [Did(|acts| - 1)] else []
  }

  /** Every update among the first actions appends the label of its position. */
  ghost predicate Labelled<E>(e: E, acts: seq<Act<E, seq<Label>>>) {
    forall i, d | 0 <= i < |acts| && acts[i].Update? :: acts[i].f(e, d) == d + [Did(i)]
  }

  lemma {:induction false} UpdatesLabelled<E>(e: E, d: seq<Label>, acts: seq<Act<E, seq<Label>>>)
    requires Labelled(e, acts)
    ensures Updated(e, d, acts) == d + Labels(acts)
    decreases |acts|
  {
    if acts != [] {
      var front := acts[..|acts| - 1];
      assert Labelled(e, front) by {
        forall i, d | 0 <= i < |front| && front[i].Update? ensures front[i].f(e, d) == d + [Did(i)] {
          assert acts[i] == front[i];
        }
      }
      UpdatesLabelled(e, d, front);
    }
  }

  /** Leaving comes first, then the actions in order, then entering; an internal transition only acts. */
  lemma OrderOfEffects<E>(m: Table<E, seq<Label>>, c: Config<E, seq<Label>>, e: E, r: nat, row: Row<E, seq<Label>>)
    requires r < |c.regions| && Labelled(e, row.action)
    requires forall n, d :: m.leave(n, e, d).0 == d + [Exit(n)]
    requires forall n, d :: m.enter(n, e, d).0 == d + [Entry(n)]
    ensures Taken(m, c, e, r, row).data ==
      match row.destination
      case Nowhere => c.data + Labels(row.action)
      case State(to) => c.data + [Exit(c.regions[r])] + Labels(row.action) + [Entry(to)]
  {
    hide Taken, Updated, Labels;
    TakenExactly(m, c, e, r, row);
    match row.destination
    case Nowhere => UpdatesLabelled(e, c.data, row.action);
    case State(to) => UpdatesLabelled(e, c.data + [Exit(c.regions[r])], row.action);
  }
}
