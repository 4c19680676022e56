/**
 The per-client query guard of src/common/pg-concurrency-guard.ts.  A run is a
 sequence of steps of the promise machinery: a call of the guarded `query`, the
 start of a chained query, the settlement of a running one, the relay of that
 settlement to the `settled` promise, and the clean-up of the TAIL slot.  The
 three reactions of one `settled` promise may interleave freely with calls and
 with each other, which is more than the microtask queue allows.
 */
module QueryGuard {
  import opened Wrappers

  datatype Phase = Waiting | Active | Settled(fulfilled: bool)

  /**
   `after` is the query whose `settled` promise this one was chained on;
   `relayed` says that its own `settled` promise has resolved, `cleaned` that
   the reaction clearing TAIL has run.
   */
  datatype Query = Query(after: Option<nat>, phase: Phase, relayed: bool, cleaned: bool)

  /** Queries in submission order, the TAIL slot, and the order in which the driver received them. */
  datatype State = State(queries: seq<Query>, tail: Option<nat>, received: seq<nat>)

  datatype Step = Submit | Start(q: nat) | Settle(q: nat, fulfilled: bool) | Relay(q: nat) | Cleanup(q: nat)

  const INITIAL := State([], None, [])

  predicate Enabled(s: State, step: Step) {
    match step
    case Submit => true
    case Start(q) =>
      && q < |s.queries| && s.queries[q].phase == Waiting && s.queries[q].after.Some?
      && s.queries[q].after.value < |s.queries| && s.queries[s.queries[q].after.value].relayed
    case Settle(q, _) => q < |s.queries| && s.queries[q].phase == Active
    case Relay(q) => q < |s.queries| && s.queries[q].phase.Settled? && !s.queries[q].relayed
    case Cleanup(q) => q < |s.queries| && s.queries[q].relayed && !s.queries[q].cleaned
  }

  function Next(s: State, step: Step): State
    requires Enabled(s, step)
  {
    match step
    case Submit =>
      var n := |s.queries|;
      if s.tail == None then State(s.queries + [Query(None, Active, false, false)], Some(n), s.received + [n])
      else State(s.queries + [Query(s.tail, Waiting, false, false)], Some(n), s.received)
    case Start(q) => s.(queries := s.queries[q := s.queries[q].(phase := Active)], received := s.received + [q])
    case Settle(q, fulfilled) => s.(queries := s.queries[q := s.queries[q].(phase := Settled(fulfilled))])
    case Relay(q) => s.(queries := s.queries[q := s.queries[q].(relayed := true)])
    case Cleanup(q) =>
      s.(queries := s.queries[q := s.queries[q].(cleaned := true)], tail := if s.tail == Some(q) then None else s.tail)
  }

  /** `run` is a sequence of steps, each enabled where it is taken, from `s` to `t`. */
  ghost predicate Reaches(s: State, run: seq<Step>, t: State)
    decreases |run|
  {
    if run == [] then s == t else Enabled(s, run[0]) && Reaches(Next(s, run[0]), run[1..], t)
  }

  // ------------------------------------------------------------ The invariant

  /** The driver has received just the first `|received|` queries, in order, and all but the last of them are over. */
  ghost predicate Ordered(s: State) {
    && |s.received| <= |s.queries|
    && (forall i :: 0 <= i < |s.received| ==> s.received[i] == i)
    && (forall q :: 0 <= q < |s.queries| ==> (s.queries[q].phase != Waiting <==> q < |s.received|))
    && (forall q :: 0 <= q < |s.received| - 1 ==> s.queries[q].relayed)
  }

  ghost predicate Consistent(s: State) {
    forall q :: 0 <= q < |s.queries| ==>
      && (s.queries[q].relayed ==> s.queries[q].phase.Settled?)
      && (s.queries[q].cleaned ==> s.queries[q].relayed)
      && (s.queries[q].phase == Waiting ==> s.queries[q].after == Some(q - 1))
  }

  /** TAIL is the last query submitted, until that one is over. */
  ghost predicate TailTracksLast(s: State) {
    match s.tail
    case Some(t) => t + 1 == |s.queries| && !s.queries[t].cleaned
    case None => |s.received| == |s.queries| && (s.queries != [] ==> s.queries[|s.queries| - 1].relayed)
  }

  ghost predicate Invariant(s: State) {
    Ordered(s) && Consistent(s) && TailTracksLast(s)
  }

  lemma StepKeepsInvariant(s: State, step: Step)
    requires Invariant(s) && Enabled(s, step)
    ensures Invariant(Next(s, step))
  {
  }

  lemma {:induction false} RunKeepsInvariant(s: State, run: seq<Step>, t: State)
    requires Invariant(s) && Reaches(s, run, t)
    ensures Invariant(t)
    decreases |run|
  {
    hide Invariant;
    if run != [] {
      StepKeepsInvariant(s, run[0]);
      RunKeepsInvariant(Next(s, run[0]), run[1..], t);
    }
  }

  // ------------------------------------------------------------ Over all runs

  /** At most one guarded query runs on a client at a time. */
  lemma AtMostOneActive(run: seq<Step>, t: State)
    requires Reaches(INITIAL, run, t)
    ensures forall p, q :: 0 <= p < |t.queries| && 0 <= q < |t.queries| ==>
      t.queries[p].phase == Active && t.queries[q].phase == Active ==> p == q
  {
    RunKeepsInvariant(INITIAL, run, t);
  }

  /** The driver receives the queries in submission order, each at most once, and only when the one before is over. */
  lemma ReceivedInOrder(run: seq<Step>, t: State)
    requires Reaches(INITIAL, run, t)
    ensures t.received == seq(|t.received|, i => i) && |t.received| <= |t.queries|
    ensures forall q :: 0 <= q < |t.queries| ==> (q in t.received <==> t.queries[q].phase != Waiting)
    ensures forall p :: 0 <= p < |t.received| - 1 ==> t.queries[p].phase.Settled?
  {
    RunKeepsInvariant(INITIAL, run, t);
    forall q | 0 <= q < |t.queries| ensures q in t.received <==> t.queries[q].phase != Waiting {
      if q < |t.received| {
        assert t.received[q] == q;
      }
    }
  }

  /** An absent TAIL means that nothing is running or waiting, so a new query may start at once. */
  lemma AbsentTailNothingOutstanding(run: seq<Step>, t: State)
    requires Reaches(INITIAL, run, t) && t.tail == None
    ensures forall q :: 0 <= q < |t.queries| ==> t.queries[q].phase.Settled?
  {
    RunKeepsInvariant(INITIAL, run, t);
  }

  /** A clean-up never drops the TAIL of a query that is not over. */
  lemma CleanupDropsOnlyFinishedTails(run: seq<Step>, t: State, q: nat)
    requires Reaches(INITIAL, run, t) && Enabled(t, Cleanup(q))
    requires t.tail.Some? && t.tail.value < |t.queries| && !t.queries[t.tail.value].phase.Settled?
    ensures Next(t, Cleanup(q)).tail == t.tail
  {
    RunKeepsInvariant(INITIAL, run, t);
  }

  // ---------------------------------------------------------------- Progress

  /** Steps left for one query. */
  function StepsLeft(q: Query): nat {
    match q.phase
    case Waiting => 4
    case Active => 3
    case Settled(_) => if !q.relayed then 2 else if !q.cleaned then 1 else 0
  }

  function Work(qs: seq<Query>): nat {
    if qs == [] then 0 else StepsLeft(qs[0]) + Work(qs[1..])
  }

  lemma {:induction false} WorkUpdate(qs: seq<Query>, i: nat, q: Query)
    requires i < |qs|
    ensures Work(qs[i := q]) == Work(qs) - StepsLeft(qs[i]) + StepsLeft(q)
  {
    hide StepsLeft;
    if i == 0 {
      assert qs[0 := q][1..] == qs[1..];
    } else {
      assert qs[i := q][1..] == qs[1..][i - 1 := q];
      WorkUpdate(qs[1..], i - 1, q);
    }
  }

  lemma {:induction false} NoWorkLeft(qs: seq<Query>)
    ensures Work(qs) <= 4 * |qs|
    ensures Work(qs) == 0 ==> forall i :: 0 <= i < |qs| ==> qs[i].cleaned && qs[i].phase.Settled?
  {
    if qs != [] {
      NoWorkLeft(qs[1..]);
      if Work(qs) == 0 {
        forall i | 0 <= i < |qs| ensures qs[i].cleaned && qs[i].phase.Settled? {
          if i > 0 { assert qs[1..][i - 1] == qs[i]; }
        }
      }
    }
  }

  /** Every step but a new call uses up one unit of work. */
  lemma StepsUseUpWork(s: State, step: Step)
    requires Invariant(s) && Enabled(s, step) && step != Submit
    ensures Work(Next(s, step).queries) < Work(s.queries)
    ensures |Next(s, step).queries| == |s.queries|
  {
    WorkUpdate(s.queries, step.q, Next(s, step).queries[step.q]);
  }

  /** As long as some query is not over, some step is possible: a running query can settle, or a reaction can run. */
  lemma NeverStuck(s: State)
    requires Invariant(s) && exists q :: 0 <= q < |s.queries| && !(s.queries[q].phase.Settled? && s.queries[q].relayed)
    ensures exists step :: step != Submit && Enabled(s, step)
  {
    var k := |s.received|;
    if k > 0 && s.queries[k - 1].phase == Active {
      assert Enabled(s, Settle(k - 1, true));
    } else if k > 0 && !s.queries[k - 1].relayed {
      assert Enabled(s, Relay(k - 1));
    } else {
      assert s.queries[k].phase == Waiting;
      assert k > 0;
      assert Enabled(s, Start(k));
    }
  }

  /** The steps of a run that are no new calls: settlements and reactions. */
  function Moves(run: seq<Step>): nat {
    if run == [] then 0 else (if run[0] == Submit then 0 else 1) + Moves(run[1..])
  }

  /** As long as query `q` is not over, settlements and reactions are about it or the queries before it. */
  lemma MovesAreInFront(s: State, step: Step, q: nat)
    requires Invariant(s) && Enabled(s, step) && step != Submit
    requires q < |s.queries| && !s.queries[q].relayed
    ensures step.q <= q
  {
  }

  lemma MovesUseUpFront(s: State, step: Step, q: nat)
    requires Invariant(s) && Enabled(s, step) && q < |s.queries| && !s.queries[q].relayed
    ensures var t := Next(s, step);
      && q < |t.queries|
      && Work(t.queries[..q + 1]) <= Work(s.queries[..q + 1]) - if step == Submit then 0 else 1
  {
    hide Work;
    var t := Next(s, step);
    if step == Submit {
      assert t.queries[..q + 1] == s.queries[..q + 1];
    } else {
      MovesAreInFront(s, step, q);
      WorkUpdate(s.queries[..q + 1], step.q, t.queries[step.q]);
      assert t.queries[..q + 1] == s.queries[..q + 1][step.q := t.queries[step.q]];
    }
  }

  lemma {:induction false} RelayedStaysRelayed(s: State, run: seq<Step>, t: State, q: nat)
    requires Reaches(s, run, t) && q < |s.queries| && s.queries[q].relayed
    ensures q < |t.queries| && t.queries[q].relayed
    decreases |run|
  {
    if run != [] {
      RelayedStaysRelayed(Next(s, run[0]), run[1..], t, q);
    }
  }

  /**
   However many calls keep coming in, a query starts and settles once more
   settlements and reactions have happened than the queries up to it need; new
   calls cannot hold it up.
   */
  lemma {:induction false} EverySubmittedQueryStarts(s: State, run: seq<Step>, t: State, q: nat)
    requires Invariant(s) && Reaches(s, run, t) && q < |s.queries|
    requires Moves(run) > Work(s.queries[..q + 1])
    ensures q < |t.queries| && t.queries[q].phase.Settled? && t.queries[q].relayed && q in t.received
    decreases |run|
  {
    hide Enabled, Next, Work;
    if s.queries[q].relayed {
      RelayedStaysRelayed(s, run, t, q);
      RunKeepsInvariant(s, run, t);
      assert t.received[q] == q;
    } else {
      StepKeepsInvariant(s, run[0]);
      MovesUseUpFront(s, run[0], q);
      EverySubmittedQueryStarts(Next(s, run[0]), run[1..], t, q);
    }
  }

  /** Four settlements and reactions for each query up to `q` are always enough. */
  lemma WaitIsBounded(s: State, run: seq<Step>, t: State, q: nat)
    requires Invariant(s) && Reaches(s, run, t) && q < |s.queries|
    requires Moves(run) > 4 * (q + 1)
    ensures q < |t.queries| && t.queries[q].phase.Settled?
  {
    NoWorkLeft(s.queries[..q + 1]);
    EverySubmittedQueryStarts(s, run, t, q);
  }

  ghost predicate NoSubmit(run: seq<Step>) {
    forall i :: 0 <= i < |run| ==> run[i] != Submit
  }

  /**
   Once calls stop the rest of a run is short, and one that cannot go on has
   received and settled every query.
   */
  lemma {:induction false} QuietRunsEndSettled(s: State, run: seq<Step>, t: State)
    requires Invariant(s) && Reaches(s, run, t) && NoSubmit(run)
    ensures |run| <= Work(s.queries) && |t.queries| == |s.queries|
    ensures (forall step :: step != Submit ==> !Enabled(t, step)) ==>
      && t.received == seq(|s.queries|, i => i)
      && t.tail == None
      && forall q :: 0 <= q < |t.queries| ==> t.queries[q].phase.Settled?
    decreases |run|
  {
    hide Enabled, Next;
    if run == [] {
      StuckIsOver(t);
    } else {
      StepKeepsInvariant(s, run[0]);
      StepsUseUpWork(s, run[0]);
      assert NoSubmit(run[1..]);
      QuietRunsEndSettled(Next(s, run[0]), run[1..], t);
    }
  }

  lemma StuckIsOver(t: State)
    requires Invariant(t)
    ensures (forall step :: step != Submit ==> !Enabled(t, step)) ==>
      && t.received == seq(|t.queries|, i => i)
      && t.tail == None
      && forall q :: 0 <= q < |t.queries| ==> t.queries[q].phase.Settled?
  {
    if forall step :: step != Submit ==> !Enabled(t, step) {
      if exists q :: 0 <= q < |t.queries| && !(t.queries[q].phase.Settled? && t.queries[q].relayed) {
        NeverStuck(t);
        assert false;
      }
      TailCanBeCleaned(t);
    }
  }

  lemma TailCanBeCleaned(t: State)
    requires Invariant(t)
    ensures t.tail.Some? && t.tail.value < |t.queries| && t.queries[t.tail.value].relayed ==>
      Enabled(t, Cleanup(t.tail.value))
  {
  }

  // ------------------------------------------------------------- The guard

  datatype Mode = Off | Serialise | Throw

  /** What the driver keeps on its client object. */
  datatype Internals = Internals(pipeline: bool, activeQuery: bool, queued: nat)

  predicate IsBusy(pg: Internals) {
    !pg.pipeline && (pg.activeQuery || 0 < pg.queued)
  }

  datatype Outcome = PassedOn | RefusedAsConcurrent | Started(id: nat) | Chained(id: nat, on: nat)

  class GuardedClient {
    var queries: seq<Query>
    var tail: Option<nat>
    ghost var received: seq<nat>

    ghost function View(): State
      reads this
    {
      State(queries, tail, received)
    }

    constructor ()
      ensures View() == INITIAL && Invariant(View())
    {
      queries, tail, received := [], None, [];
    }

    /**
     `guardedQuery`: only promise-style queries in `serialise` mode touch the
     chain.  One that starts at once finds nothing else running or waiting.
     */
    method GuardedQuery(mode: Mode, promiseStyle: bool, pg: Internals) returns (r: Outcome)
      requires Invariant(View())
      modifies this
      ensures Invariant(View())
      ensures mode == Serialise && promiseStyle ==>
        && View() == Next(old(View()), Submit)
        && r == if old(tail).Some? then Chained(|old(queries)|, old(tail).value) else Started(|old(queries)|)
      ensures r.Started? ==> forall q :: 0 <= q < |old(queries)| ==> old(queries)[q].phase.Settled?
      ensures !(mode == Serialise && promiseStyle) ==>
        && View() == old(View())
        && r == (if mode == Throw && promiseStyle && !pg.pipeline && (pg.activeQuery || 0 < pg.queued)
            then RefusedAsConcurrent else PassedOn)
    {
      if mode == Off || !promiseStyle { return PassedOn; }
      if mode == Throw {
        if IsBusy(pg) { return RefusedAsConcurrent; }
        return PassedOn;
      }
      StepKeepsInvariant(View(), Submit);
      var id := |queries|;
      if tail.Some? {
        queries := queries + [Query(tail, Waiting, false, false)];
        r := Chained(id, tail.value);
      } else {
        queries := queries + [Query(None, Active, false, false)];
        received := received + [id];
        r := Started(id);
      }
      tail := Some(id);
    }

    /** `tail.then(run, run)`: the chained query goes to the driver, however the one before ended. */
    method Run(q: nat)
      requires Invariant(View()) && Enabled(View(), Start(q))
      modifies this
      ensures View() == Next(old(View()), Start(q)) && Invariant(View())
      ensures forall p :: 0 <= p < |queries| && queries[p].phase == Active ==> p == q
    {
      StepKeepsInvariant(View(), Start(q));
      queries := queries[q := queries[q].(phase := Active)];
      received := received + [q];
    }

    /** The driver is done with a query; none is running now. */
    method SettleQuery(q: nat, fulfilled: bool)
      requires Invariant(View()) && Enabled(View(), Settle(q, fulfilled))
      modifies this
      ensures View() == Next(old(View()), Settle(q, fulfilled)) && Invariant(View())
      ensures forall p :: 0 <= p < |queries| ==> queries[p].phase != Active
    {
      StepKeepsInvariant(View(), Settle(q, fulfilled));
      queries := queries[q := queries[q].(phase := Settled(fulfilled))];
    }

    /** `settled` resolves; the query chained on it can start. */
    method RelaySettlement(q: nat)
      requires Invariant(View()) && Enabled(View(), Relay(q))
      modifies this
      ensures View() == Next(old(View()), Relay(q)) && Invariant(View())
      ensures q + 1 < |queries| ==> Enabled(View(), Start(q + 1))
    {
      StepKeepsInvariant(View(), Relay(q));
      queries := queries[q := queries[q].(relayed := true)];
    }

    /** TAIL is dropped only by the last query. */
    method ClearTail(q: nat)
      requires Invariant(View()) && Enabled(View(), Cleanup(q))
      modifies this
      ensures View() == Next(old(View()), Cleanup(q)) && Invariant(View())
      ensures tail == if q + 1 == |queries| then None else old(tail)
    {
      StepKeepsInvariant(View(), Cleanup(q));
      queries := queries[q := queries[q].(cleaned := true)];
      if tail == Some(q) { tail := None; }
    }
  }
}
