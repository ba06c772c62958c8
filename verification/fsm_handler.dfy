/**
 The table-driven state machine: one queue, a run-to-completion loop, guards that may change the machine
 they inspect, `ANY_EVENT` rows that chain without a new event, and parameters owned by the engine.

 A run is described by a context: current state, machine data, and a log of every guard, action and
 parameter deletion.  Guards and actions are functions of the machine data and the parameter, so they
 cannot call back into the engine (its mutex is not recursive).
 */
module Fsm {
  import opened Common

  const ANY_EVENT: int := -1

  type State = nat
  type Param = nat

  datatype Row<!M> = Row(
    start: State,
    event: int,
    fn: Option<(M, Param) -> M>,
    next: State,
    cond: Option<(M, Param) -> (M, bool)>)

  datatype Entry = Guard(row: nat, p: Param) | Action(row: nat, p: Param) | Delete(p: Param)

  datatype Ctx<M> = Ctx(state: State, data: M, log: seq<Entry>)

  // ---------- One event: the table scan ----------

  /** Evaluates the guard of row `i`; a row without one is always enabled. */
  function Check<M>(t: seq<Row<M>>, i: nat, c: Ctx<M>, p: Param): (Ctx<M>, bool)
    requires i < |t|
  {
    match t[i].cond
    case None => (c, true)
    case Some(f) =>
      var (data, ok) := f(c.data, p);
      (Ctx(c.state, data, c.log + [Guard(i, p)]), ok)
  }

  function Fire<M>(t: seq<Row<M>>, i: nat, c: Ctx<M>, p: Param): Ctx<M>
    requires i < |t|
  {
    match t[i].fn
    case None => c.(state := t[i].next)
    case Some(f) => Ctx(t[i].next, f(c.data, p), c.log + [Action(i, p)])
  }

  predicate Matches<M>(t: seq<Row<M>>, i: nat, s: State, ev: int) {
    i < |t| && t[i].start == s && t[i].event == ev
  }

  /** Scans the rows from `i` on for event `ev`: the resulting context, and whether a row fired. */
  function Scan<M>(t: seq<Row<M>>, i: nat, c: Ctx<M>, ev: int, p: Param): (Ctx<M>, bool)
    requires i <= |t|
    decreases |t| - i
  {
    if i == |t| then (c, false)
    else if !Matches(t, i, c.state, ev) then Scan(t, i + 1, c, ev, p)
    else
      var (c', ok) := Check(t, i, c, p);
      if ok then (Fire(t, i, c', p), true) else Scan(t, i + 1, c', ev, p)
  }

  function Process<M>(t: seq<Row<M>>, c: Ctx<M>, ev: int, p: Param): Ctx<M> { Scan(t, 0, c, ev, p).0 }

  /** Guards that only look: none changes the data it is given. */
  ghost predicate PureGuards<M(!new)>(t: seq<Row<M>>) {
    forall i, data, p {:trigger t[i].cond.value(data, p)} | 0 <= i < |t| && t[i].cond.Some? ::
      t[i].cond.value(data, p).0 == data
  }

  predicate Enabled<M>(t: seq<Row<M>>, i: nat, c: Ctx<M>, ev: int, p: Param) {
    Matches(t, i, c.state, ev) && (t[i].cond.Some? ==> t[i].cond.value(c.data, p).1)
  }

  /** With guards that only look, an event is refused, leaving state and data alone, exactly when no row is
      enabled for it. */
  lemma {:induction false} ScanRefusesIff<M(!new)>(t: seq<Row<M>>, i: nat, c: Ctx<M>, ev: int, p: Param)
    requires i <= |t| && PureGuards(t)
    ensures var (c', fired) := Scan(t, i, c, ev, p);
            && (fired <==> (exists k: nat | i <= k < |t| ::
                              && t[k].start == c.state && t[k].event == ev
                              && (t[k].cond.Some? ==> t[k].cond.value(c.data, p).1)))
            && (!fired ==> c'.state == c.state && c'.data == c.data)
    decreases |t| - i
  {
    if i < |t| {
      var c1 := c;
      if Matches(t, i, c.state, ev) {
        c1 := Check(t, i, c, p).0;
        assert Check(t, i, c, p).1 <==> Enabled(t, i, c, ev, p);
      }
      if !Enabled(t, i, c, ev, p) {
        ScanRefusesIff(t, i + 1, c1, ev, p);
      }
    }
  }

  /** And the row that fires is the enabled one with the lowest index. */
  lemma {:induction false} ScanTakesLowest<M(!new)>(t: seq<Row<M>>, i: nat, c: Ctx<M>, ev: int, p: Param, k: nat)
    requires i <= k < |t| && PureGuards(t)
    requires t[k].start == c.state && t[k].event == ev && (t[k].cond.Some? ==> t[k].cond.value(c.data, p).1)
    requires forall j: nat | i <= j < k ::
               !(t[j].start == c.state && t[j].event == ev && (t[j].cond.Some? ==> t[j].cond.value(c.data, p).1))
    ensures var (c', fired) := Scan(t, i, c, ev, p);
            && fired && c'.state == t[k].next
            && c'.data == if t[k].fn.Some? then t[k].fn.value(c.data, p) else c.data
    decreases k - i
  {
    if i < k {
      assert !Enabled(t, i, c, ev, p);
      if Matches(t, i, c.state, ev) {
        var c1 := Check(t, i, c, p).0;
        ScanTakesLowest(t, i + 1, c1, ev, p, k);
      } else {
        ScanTakesLowest(t, i + 1, c, ev, p, k);
      }
    }
  }

  /** Trying rows in order, on the table alone: `trial[j]` is what row `j` finds.  A row for another state or event is
      passed over; the guard of any other row has refused, leaving the data it returned and its entry in the log. */
  ghost predicate Trial<M>(t: seq<Row<M>>, c: Ctx<M>, ev: int, p: Param, trial: seq<Ctx<M>>) {
    && 1 <= |trial| <= |t| + 1 && trial[0] == c
    && (forall j | 0 <= j < |trial| :: trial[j].state == c.state)
    && forall j {:trigger t[j]} | 0 <= j < |trial| - 1 ::
         if t[j].start == c.state && t[j].event == ev then
           && t[j].cond.Some? && t[j].cond.value(trial[j].data, p) == (trial[j + 1].data, false)
           && trial[j + 1].log == trial[j].log + [Guard(j, p)]
         else trial[j + 1] == trial[j]
  }

  /** What comes of a trial: all rows were tried, or the last row reached is for this state and event, accepts, acts on
      the data its guard left, and gives the next state. */
  ghost predicate Ended<M>(t: seq<Row<M>>, c: Ctx<M>, ev: int, p: Param, trial: seq<Ctx<M>>, c': Ctx<M>, fired: bool)
    requires 1 <= |trial| <= |t| + 1
  {
    var k := |trial| - 1;
    var found := trial[k];
    if !fired then k == |t| && c' == found
    else
      && k < |t| && t[k].start == c.state && t[k].event == ev
      && (t[k].cond.Some? ==> t[k].cond.value(found.data, p).1)
      && c'.state == t[k].next
      && var data := if t[k].cond.Some? then t[k].cond.value(found.data, p).0 else found.data;
         && c'.data == (if t[k].fn.Some? then t[k].fn.value(data, p) else data)
         && c'.log == found.log + (if t[k].cond.Some? then [Guard(k, p)] else [])
                      + (if t[k].fn.Some? then [Action(k, p)] else [])
  }

  /** Whatever the guards do to the data, a scan is such a trial and its outcome. */
  lemma ScanIsTrial<M>(t: seq<Row<M>>, c: Ctx<M>, ev: int, p: Param) returns (trial: seq<Ctx<M>>)
    ensures Trial(t, c, ev, p, trial)
    ensures var (c', fired) := Scan(t, 0, c, ev, p); Ended(t, c, ev, p, trial, c', fired)
  {
    trial := TrialFrom(t, c, ev, p, [c]);
  }

  lemma {:induction false} TrialFrom<M>(t: seq<Row<M>>, c: Ctx<M>, ev: int, p: Param, begun: seq<Ctx<M>>)
    returns (trial: seq<Ctx<M>>)
    requires Trial(t, c, ev, p, begun) && begun[|begun| - 1].state == c.state
    ensures Trial(t, c, ev, p, trial)
    ensures var (c', fired) := Scan(t, |begun| - 1, begun[|begun| - 1], ev, p); Ended(t, c, ev, p, trial, c', fired)
    decreases |t| + 1 - |begun|
  {
    var i := |begun| - 1;
    var found := begun[i];
    trial := begun;
    if i < |t| {
      if t[i].start == c.state && t[i].event == ev {
        var (next, ok) := Check(t, i, found, p);
        if !ok {
          trial := TrialFrom(t, c, ev, p, begun + [next]);
        }
      } else {
        trial := TrialFrom(t, c, ev, p, begun + [found]);
      }
    }
  }

  /** An event for which the state has no row changes nothing, whatever the guards of other rows. */
  lemma {:induction false} NoRowNoChange<M>(t: seq<Row<M>>, i: nat, c: Ctx<M>, ev: int, p: Param)
    requires i <= |t| && forall k | i <= k < |t| :: !(t[k].start == c.state && t[k].event == ev)
    ensures Scan(t, i, c, ev, p) == (c, false)
    decreases |t| - i
  {
    if i < |t| {
      NoRowNoChange(t, i + 1, c, ev, p);
    }
  }

  lemma ScanFollowsTable<M>(t: seq<Row<M>>, c: Ctx<M>, ev: int, p: Param)
    ensures var (c', fired) := Scan(t, 0, c, ev, p);
            && (exists trial | Trial(t, c, ev, p, trial) :: Ended(t, c, ev, p, trial, c', fired))
            && (fired ==> exists k | 0 <= k < |t| :: t[k].start == c.state && t[k].event == ev && c'.state == t[k].next)
            && (!fired ==> c'.state == c.state)
            && ((forall k | 0 <= k < |t| :: !(t[k].start == c.state && t[k].event == ev)) ==> !fired && c' == c)
  {
    var trial := ScanIsTrial(t, c, ev, p);
    if forall k | 0 <= k < |t| :: !(t[k].start == c.state && t[k].event == ev) {
      NoRowNoChange(t, 0, c, ev, p);
    }
  }

  // ---------- Run to completion ----------

  predicate HasAny<M>(t: seq<Row<M>>, s: State) {
    exists i | 0 <= i < |t| :: t[i].start == s && t[i].event == ANY_EVENT
  }

  /** The event settles after at most `n` chained `ANY_EVENT` steps. */
  ghost predicate CompletesIn<M>(t: seq<Row<M>>, c: Ctx<M>, ev: int, p: Param, n: nat)
    decreases n
  {
    var c' := Process(t, c, ev, p);
    HasAny(t, c'.state) ==> n > 0 && CompletesIn(t, c', ANY_EVENT, p, n - 1)
  }

  ghost predicate Completes<M>(t: seq<Row<M>>, c: Ctx<M>, ev: int, p: Param) {
    exists n: nat :: CompletesIn(t, c, ev, p, n)
  }

  ghost function RunWithin<M>(t: seq<Row<M>>, c: Ctx<M>, ev: int, p: Param, n: nat): Ctx<M>
    requires CompletesIn(t, c, ev, p, n)
    decreases n
  {
    var c' := Process(t, c, ev, p);
    if HasAny(t, c'.state) then RunWithin(t, c', ANY_EVENT, p, n - 1)
    else c'.(log := c'.log + [Delete(p)])
  }

  /** One event run to completion: a row for the event, then `ANY_EVENT` rows until the state has none, and
      only then is the parameter deleted. */
  ghost function Run<M>(t: seq<Row<M>>, c: Ctx<M>, ev: int, p: Param): Ctx<M>
    requires Completes(t, c, ev, p)
  {
    var n: nat :| CompletesIn(t, c, ev, p, n);
    RunWithin(t, c, ev, p, n)
  }

  lemma {:induction false} RunWithinAgrees<M>(t: seq<Row<M>>, c: Ctx<M>, ev: int, p: Param, m: nat, n: nat)
    requires CompletesIn(t, c, ev, p, m) && CompletesIn(t, c, ev, p, n)
    ensures RunWithin(t, c, ev, p, m) == RunWithin(t, c, ev, p, n)
    decreases m
  {
    var c' := Process(t, c, ev, p);
    if HasAny(t, c'.state) {
      RunWithinAgrees(t, c', ANY_EVENT, p, m - 1, n - 1);
    }
  }

  /** A chained step counts as one more event with the same parameter. */
  lemma RunUnfolds<M>(t: seq<Row<M>>, c: Ctx<M>, ev: int, p: Param)
    ensures var c' := Process(t, c, ev, p);
            Completes(t, c, ev, p) <==> HasAny(t, c'.state) ==> Completes(t, c', ANY_EVENT, p)
    ensures var c' := Process(t, c, ev, p);
            Completes(t, c, ev, p) ==>
              Run(t, c, ev, p) == if HasAny(t, c'.state) then Run(t, c', ANY_EVENT, p)
                  else c'.(log := c'.log + [Delete(p)])
  {
    var c' := Process(t, c, ev, p);
    if Completes(t, c, ev, p) {
      var n: nat :| CompletesIn(t, c, ev, p, n) && Run(t, c, ev, p) == RunWithin(t, c, ev, p, n);
      if HasAny(t, c'.state) {
        assert CompletesIn(t, c', ANY_EVENT, p, n - 1);
        var m: nat :| CompletesIn(t, c', ANY_EVENT, p, m)
            && Run(t, c', ANY_EVENT, p) == RunWithin(t, c', ANY_EVENT, p, m);
        RunWithinAgrees(t, c', ANY_EVENT, p, m, n - 1);
        assert RunWithin(t, c, ev, p, n) == RunWithin(t, c', ANY_EVENT, p, n - 1);
      }
    } else {
      assert !CompletesIn(t, c, ev, p, 0);
      if Completes(t, c', ANY_EVENT, p) {
        var n: nat :| CompletesIn(t, c', ANY_EVENT, p, n);
        assert CompletesIn(t, c, ev, p, n + 1);
      }
    }
  }

  type Queue = seq<(int, Param)>

  ghost predicate QueueCompletes<M>(t: seq<Row<M>>, c: Ctx<M>, q: Queue)
    decreases |q|
  {
    q != [] ==> Completes(t, c, q[0].0, q[0].1) && QueueCompletes(t, Run(t, c, q[0].0, q[0].1), q[1..])
  }

  /** The queued events, each run to completion before the next. */
  ghost function FoldQueue<M>(t: seq<Row<M>>, c: Ctx<M>, q: Queue): Ctx<M>
    requires QueueCompletes(t, c, q)
    decreases |q|
  {
    if q == [] then c else FoldQueue(t, Run(t, c, q[0].0, q[0].1), q[1..])
  }

  /** An empty queue changes nothing, and firing one more event afterwards is the same as having queued it. */
  lemma {:induction false} FoldSnoc<M>(t: seq<Row<M>>, c: Ctx<M>, q: Queue, ev: int, p: Param)
    ensures QueueCompletes(t, c, []) && FoldQueue(t, c, []) == c
    ensures QueueCompletes(t, c, q + [(ev, p)]) <==>
            QueueCompletes(t, c, q) && Completes(t, FoldQueue(t, c, q), ev, p)
    ensures QueueCompletes(t, c, q + [(ev, p)]) ==>
            FoldQueue(t, c, q + [(ev, p)]) == Run(t, FoldQueue(t, c, q), ev, p)
    decreases |q|
  {
    if q == [] {
      assert q + [(ev, p)] == [(ev, p)] && [(ev, p)][1..] == [];
    } else if Completes(t, c, q[0].0, q[0].1) {
      assert (q + [(ev, p)])[1..] == q[1..] + [(ev, p)];
      FoldSnoc(t, Run(t, c, q[0].0, q[0].1), q[1..], ev, p);
    }
  }

  /** A run never stops in a state that still has an `ANY_EVENT` row. */
  lemma {:induction false} RunSettles<M>(t: seq<Row<M>>, c: Ctx<M>, ev: int, p: Param, n: nat)
    requires CompletesIn(t, c, ev, p, n)
    ensures forall i | 0 <= i < |t| :: !(t[i].start == RunWithin(t, c, ev, p, n).state && t[i].event == ANY_EVENT)
    decreases n
  {
    var c' := Process(t, c, ev, p);
    if HasAny(t, c'.state) {
      RunSettles(t, c', ANY_EVENT, p, n - 1);
    }
  }

  /** After draining a non-empty queue the state has no outgoing `ANY_EVENT` row. */
  lemma {:induction false} DrainedStateIsSettled<M>(t: seq<Row<M>>, c: Ctx<M>, q: Queue)
    requires q != [] && QueueCompletes(t, c, q)
    ensures forall i | 0 <= i < |t| :: !(t[i].start == FoldQueue(t, c, q).state && t[i].event == ANY_EVENT)
    decreases |q|
  {
    var c' := Run(t, c, q[0].0, q[0].1);
    if |q| == 1 {
      var n: nat :| CompletesIn(t, c, q[0].0, q[0].1, n) && c' == RunWithin(t, c, q[0].0, q[0].1, n);
      RunSettles(t, c, q[0].0, q[0].1, n);
    } else {
      DrainedStateIsSettled(t, c', q[1..]);
    }
  }

  // ---------- The loop, one iteration at a time ----------

  datatype Cfg<M> = Cfg(c: Ctx<M>, queue: Queue)

  /** One turn of the drain loop: process the front event, pop it, then push `ANY_EVENT` or delete. */
  function Turn<M>(t: seq<Row<M>>, g: Cfg<M>): Cfg<M>
    requires g.queue != []
  {
    var (ev, p) := g.queue[0];
    var c := Process(t, g.c, ev, p);
    if HasAny(t, c.state) then Cfg(c, [(ANY_EVENT, p)] + g.queue[1..])
    else Cfg(c.(log := c.log + [Delete(p)]), g.queue[1..])
  }

  function Turns<M>(t: seq<Row<M>>, g: Cfg<M>, n: nat): Cfg<M>
    decreases n
  {
    if n == 0 || g.queue == [] then g else Turns(t, Turn(t, g), n - 1)
  }

  lemma TurnKeepsFold<M>(t: seq<Row<M>>, g: Cfg<M>)
    requires g.queue != []
    ensures QueueCompletes(t, g.c, g.queue) <==> QueueCompletes(t, Turn(t, g).c, Turn(t, g).queue)
    ensures QueueCompletes(t, g.c, g.queue) ==>
            FoldQueue(t, g.c, g.queue) == FoldQueue(t, Turn(t, g).c, Turn(t, g).queue)
  {
    var (ev, p) := g.queue[0];
    RunUnfolds(t, g.c, ev, p);
    var g' := Turn(t, g);
    if HasAny(t, Process(t, g.c, ev, p).state) {
      assert g'.queue[0] == (ANY_EVENT, p) && g'.queue[1..] == g.queue[1..];
    }
  }

  /** The loop empties the queue after finitely many turns exactly when every queued event completes, and
      then it has computed the fold; otherwise it runs for ever. */
  lemma LoopIsFold<M>(t: seq<Row<M>>, c: Ctx<M>, q: Queue)
    ensures (exists n: nat :: Turns(t, Cfg(c, q), n).queue == []) <==> QueueCompletes(t, c, q)
    ensures forall n: nat | Turns(t, Cfg(c, q), n).queue == [] ::
              QueueCompletes(t, c, q) && Turns(t, Cfg(c, q), n).c == FoldQueue(t, c, q)
  {
    forall n: nat | Turns(t, Cfg(c, q), n).queue == []
      ensures QueueCompletes(t, c, q) && Turns(t, Cfg(c, q), n).c == FoldQueue(t, c, q)
    {
      TurnsReachFold(t, Cfg(c, q), n);
    }
    if QueueCompletes(t, c, q) {
      var n := FoldIsReached(t, Cfg(c, q));
      assert Turns(t, Cfg(c, q), n).queue == [];
    }
  }

  lemma {:induction false} TurnsReachFold<M>(t: seq<Row<M>>, g: Cfg<M>, n: nat)
    requires Turns(t, g, n).queue == []
    ensures QueueCompletes(t, g.c, g.queue) && Turns(t, g, n).c == FoldQueue(t, g.c, g.queue)
    decreases n
  {
    if g.queue != [] {
      TurnsReachFold(t, Turn(t, g), n - 1);
      TurnKeepsFold(t, g);
    }
  }

  /** Lexicographic descent: events still queued, then chained steps left for the front one. */
  lemma {:induction false} FoldIsReached<M>(t: seq<Row<M>>, g: Cfg<M>) returns (n: nat)
    requires QueueCompletes(t, g.c, g.queue)
    ensures Turns(t, g, n).queue == []
    decreases |g.queue|, 1, 0
  {
    if g.queue == [] {
      n := 0;
    } else {
      var k: nat :| CompletesIn(t, g.c, g.queue[0].0, g.queue[0].1, k);
      n := FoldIsReachedIn(t, g, k);
    }
  }

  lemma {:induction false} FoldIsReachedIn<M>(t: seq<Row<M>>, g: Cfg<M>, k: nat) returns (n: nat)
    requires g.queue != [] && QueueCompletes(t, g.c, g.queue)
    requires CompletesIn(t, g.c, g.queue[0].0, g.queue[0].1, k)
    ensures Turns(t, g, n).queue == []
    decreases |g.queue|, 0, k
  {
    TurnKeepsFold(t, g);
    var g' := Turn(t, g);
    if HasAny(t, Process(t, g.c, g.queue[0].0, g.queue[0].1).state) {
      n := FoldIsReachedIn(t, g', k - 1);
    } else {
      n := FoldIsReached(t, g');
    }
    n := n + 1;
  }

  // ---------- When the loop terminates, and when it does not ----------

  /** Some row fires for `ANY_EVENT` in every state that has one, whatever the machine data. */
  ghost predicate NeverStuck<M(!new)>(t: seq<Row<M>>) {
    forall c: Ctx<M>, p | HasAny(t, c.state) :: Scan(t, 0, c, ANY_EVENT, p).1
  }

  /** `ANY_EVENT` rows strictly lower the rank of the state. */
  ghost predicate AnyRowsDescend<M>(t: seq<Row<M>>, rank: State -> nat) {
    forall i | 0 <= i < |t| && t[i].event == ANY_EVENT :: rank(t[i].next) < rank(t[i].start)
  }

  lemma {:induction false} ScanFollowsARow<M>(t: seq<Row<M>>, i: nat, c: Ctx<M>, ev: int, p: Param) returns (k: nat)
    requires i <= |t| && Scan(t, i, c, ev, p).1
    ensures k < |t| && t[k].start == c.state && t[k].event == ev && Scan(t, i, c, ev, p).0.state == t[k].next
    decreases |t| - i
  {
    if !Matches(t, i, c.state, ev) {
      k := ScanFollowsARow(t, i + 1, c, ev, p);
    } else {
      var (c', ok) := Check(t, i, c, p);
      if ok {
        k := i;
      } else {
        k := ScanFollowsARow(t, i + 1, c', ev, p);
      }
    }
  }

  lemma {:induction false} ChainDescends<M(!new)>(t: seq<Row<M>>, rank: State -> nat, c: Ctx<M>, p: Param)
    requires NeverStuck(t) && AnyRowsDescend(t, rank) && HasAny(t, c.state)
    ensures Completes(t, c, ANY_EVENT, p)
    decreases rank(c.state)
  {
    var c' := Process(t, c, ANY_EVENT, p);
    var k := ScanFollowsARow(t, 0, c, ANY_EVENT, p);
    assert rank(c'.state) < rank(c.state);
    RunUnfolds(t, c, ANY_EVENT, p);
    if HasAny(t, c'.state) {
      ChainDescends(t, rank, c', p);
    }
  }

  /** Such a table drains every queue from every context. */
  lemma {:induction false} RankedTableDrains<M(!new)>(t: seq<Row<M>>, rank: State -> nat, c: Ctx<M>, q: Queue)
    requires NeverStuck(t) && AnyRowsDescend(t, rank)
    ensures QueueCompletes(t, c, q)
    decreases |q|
  {
    if q != [] {
      var (ev, p) := q[0];
      var c' := Process(t, c, ev, p);
      RunUnfolds(t, c, ev, p);
      if HasAny(t, c'.state) {
        ChainDescends(t, rank, c', p);
      }
      RankedTableDrains(t, rank, Run(t, c, ev, p), q[1..]);
    }
  }

  /** Every `ANY_EVENT` row of the state has a guard that refuses this data and leaves it alone. */
  ghost predicate AllRefuse<M>(t: seq<Row<M>>, s: State, data: M, p: Param) {
    forall i | 0 <= i < |t| && t[i].start == s && t[i].event == ANY_EVENT ::
      t[i].cond.Some? && t[i].cond.value(data, p) == (data, false)
  }

  lemma {:induction false} RefusedScan<M>(t: seq<Row<M>>, i: nat, c: Ctx<M>, p: Param)
    requires i <= |t| && AllRefuse(t, c.state, c.data, p)
    ensures var (c', fired) := Scan(t, i, c, ANY_EVENT, p); !fired && c'.state == c.state && c'.data == c.data
    decreases |t| - i
  {
    if i < |t| {
      if Matches(t, i, c.state, ANY_EVENT) {
        RefusedScan(t, i + 1, Check(t, i, c, p).0, p);
      } else {
        RefusedScan(t, i + 1, c, p);
      }
    }
  }

  /** Then the loop repeats the same state, data and queue for ever. */
  lemma {:induction false} RefusedChainLoops<M>(t: seq<Row<M>>, c: Ctx<M>, p: Param, rest: Queue, n: nat)
    requires HasAny(t, c.state) && AllRefuse(t, c.state, c.data, p)
    ensures var g := Turns(t, Cfg(c, [(ANY_EVENT, p)] + rest), n);
            g.queue == [(ANY_EVENT, p)] + rest && g.c.state == c.state && g.c.data == c.data
    decreases n
  {
    if n > 0 {
      RefusedScan(t, 0, c, p);
      var q: Queue := [(ANY_EVENT, p)] + rest;
      assert q[1..] == rest;
      RefusedChainLoops(t, Process(t, c, ANY_EVENT, p), p, rest, n - 1);
    }
  }

  /** Following `ANY_EVENT` rows from `c` meets such a refusal within `n` steps. */
  ghost predicate RefusedWithin<M>(t: seq<Row<M>>, c: Ctx<M>, p: Param, n: nat)
    decreases n
  {
    && HasAny(t, c.state)
    && (AllRefuse(t, c.state, c.data, p) || (n > 0 && RefusedWithin(t, Process(t, c, ANY_EVENT, p), p, n - 1)))
  }

  ghost predicate EverRefused<M>(t: seq<Row<M>>, c: Ctx<M>, p: Param) { exists n: nat :: RefusedWithin(t, c, p, n) }

  /** With descending `ANY_EVENT` rows and guards that only look, an event completes exactly when the chain it
      starts never reaches a state whose `ANY_EVENT` rows all refuse. */
  lemma CompletesIffNeverRefused<M(!new)>(t: seq<Row<M>>, rank: State -> nat, c: Ctx<M>, ev: int, p: Param)
    requires PureGuards(t) && AnyRowsDescend(t, rank)
    ensures Completes(t, c, ev, p) <==> !EverRefused(t, Process(t, c, ev, p), p)
  {
    var c' := Process(t, c, ev, p);
    RunUnfolds(t, c, ev, p);
    if EverRefused(t, c', p) {
      var n: nat :| RefusedWithin(t, c', p, n);
      RefusedNeverCompletes(t, c', p, n);
    } else if HasAny(t, c'.state) {
      UnrefusedCompletes(t, rank, c', p);
    }
  }

  lemma {:induction false} RefusedNeverCompletes<M>(t: seq<Row<M>>, c: Ctx<M>, p: Param, n: nat)
    requires RefusedWithin(t, c, p, n)
    ensures !Completes(t, c, ANY_EVENT, p)
    decreases n
  {
    if AllRefuse(t, c.state, c.data, p) {
      forall k: nat ensures !CompletesIn(t, c, ANY_EVENT, p, k) {
        RefusalRepeats(t, c, p, k);
      }
    } else {
      RunUnfolds(t, c, ANY_EVENT, p);
      RefusedNeverCompletes(t, Process(t, c, ANY_EVENT, p), p, n - 1);
    }
  }

  lemma {:induction false} RefusalRepeats<M>(t: seq<Row<M>>, c: Ctx<M>, p: Param, k: nat)
    requires HasAny(t, c.state) && AllRefuse(t, c.state, c.data, p)
    ensures !CompletesIn(t, c, ANY_EVENT, p, k)
    decreases k
  {
    RefusedScan(t, 0, c, p);
    if k > 0 {
      RefusalRepeats(t, Process(t, c, ANY_EVENT, p), p, k - 1);
    }
  }

  lemma {:induction false} UnrefusedCompletes<M(!new)>(t: seq<Row<M>>, rank: State -> nat, c: Ctx<M>, p: Param)
    requires PureGuards(t) && AnyRowsDescend(t, rank)
    requires HasAny(t, c.state) && !EverRefused(t, c, p)
    ensures Completes(t, c, ANY_EVENT, p)
    decreases rank(c.state)
  {
    assert !RefusedWithin(t, c, p, 0);
    var i :| 0 <= i < |t| && t[i].start == c.state && t[i].event == ANY_EVENT
             && !(t[i].cond.Some? && t[i].cond.value(c.data, p) == (c.data, false));
    assert Enabled(t, i, c, ANY_EVENT, p);
    ScanRefusesIff(t, 0, c, ANY_EVENT, p);
    var k := ScanFollowsARow(t, 0, c, ANY_EVENT, p);
    var c' := Process(t, c, ANY_EVENT, p);
    assert rank(c'.state) < rank(c.state);
    RunUnfolds(t, c, ANY_EVENT, p);
    if HasAny(t, c'.state) {
      forall n: nat ensures !RefusedWithin(t, c', p, n) {
        assert !RefusedWithin(t, c, p, n + 1);
      }
      UnrefusedCompletes(t, rank, c', p);
    }
  }

  // ---------- Parameter ownership ----------

  predicate Uses(e: Entry, p: Param) { !e.Delete? && e.p == p }

  /** `seg` is what one event does with its parameter: guards and actions, then the one deletion. */
  ghost predicate OneLife(seg: seq<Entry>, p: Param) {
    && seg != [] && seg[|seg| - 1] == Delete(p)
    && forall i | 0 <= i < |seg| - 1 :: Uses(seg[i], p)
  }

  lemma {:induction false} ScanOnlyUses<M>(t: seq<Row<M>>, i: nat, c: Ctx<M>, ev: int, p: Param)
    returns (uses: seq<Entry>)
    requires i <= |t|
    ensures Scan(t, i, c, ev, p).0.log == c.log + uses && forall e | e in uses :: Uses(e, p)
    decreases |t| - i
  {
    uses := [];
    if i < |t| {
      if !Matches(t, i, c.state, ev) {
        uses := ScanOnlyUses(t, i + 1, c, ev, p);
      } else {
        var (c', ok) := Check(t, i, c, p);
        var checked := if t[i].cond.Some? then [Guard(i, p)] else [];
        assert c'.log == c.log + checked;
        if ok {
          uses := checked + if t[i].fn.Some? then [Action(i, p)] else [];
        } else {
          var more := ScanOnlyUses(t, i + 1, c', ev, p);
          uses := checked + more;
        }
      }
    }
  }

  lemma {:induction false} RunIsOneLife<M>(t: seq<Row<M>>, c: Ctx<M>, ev: int, p: Param, n: nat)
    returns (seg: seq<Entry>)
    requires CompletesIn(t, c, ev, p, n)
    ensures RunWithin(t, c, ev, p, n).log == c.log + seg && OneLife(seg, p)
    decreases n
  {
    var uses := ScanOnlyUses(t, 0, c, ev, p);
    var c' := Process(t, c, ev, p);
    if HasAny(t, c'.state) {
      var more := RunIsOneLife(t, c', ANY_EVENT, p, n - 1);
      seg := uses + more;
    } else {
      seg := uses + [Delete(p)];
    }
  }

  lemma RunLife<M>(t: seq<Row<M>>, c: Ctx<M>, ev: int, p: Param) returns (seg: seq<Entry>)
    requires Completes(t, c, ev, p)
    ensures Run(t, c, ev, p).log == c.log + seg && OneLife(seg, p)
  {
    var n: nat :| CompletesIn(t, c, ev, p, n) && Run(t, c, ev, p) == RunWithin(t, c, ev, p, n);
    seg := RunIsOneLife(t, c, ev, p, n);
  }

  /** Deleted exactly once in `log`, at a point after which it is not mentioned again. */
  ghost predicate DeletedOnceAfterLastUse(log: seq<Entry>, p: Param) {
    exists d | 0 <= d < |log| ::
      && log[d] == Delete(p)
      && (forall i | 0 <= i < d :: log[i] != Delete(p))
      && (forall i | d < i < |log| :: log[i].p != p)
  }

  ghost predicate AllDieOnce(added: seq<Entry>, q: Queue) {
    && (forall k | 0 <= k < |q| :: DeletedOnceAfterLastUse(added, q[k].1))
    && (forall e | e in added :: exists k | 0 <= k < |q| :: q[k].1 == e.p)
  }

  ghost predicate DistinctParams(q: Queue) { forall i, j | 0 <= i < j < |q| :: q[i].1 != q[j].1 }

  /** Draining a queue of distinct parameters deletes each of them exactly once, after its last guard or action,
      and mentions no other parameter; so none of them is live afterwards. */
  lemma ParametersDieOnce<M>(t: seq<Row<M>>, c: Ctx<M>, q: Queue)
    requires QueueCompletes(t, c, q) && DistinctParams(q)
    ensures c.log <= FoldQueue(t, c, q).log && AllDieOnce(FoldQueue(t, c, q).log[|c.log|..], q)
  {
    var added := QueueLives(t, c, q);
    assert FoldQueue(t, c, q).log[|c.log|..] == added;
  }

  lemma {:induction false} QueueLives<M>(t: seq<Row<M>>, c: Ctx<M>, q: Queue) returns (added: seq<Entry>)
    requires QueueCompletes(t, c, q) && DistinctParams(q)
    ensures FoldQueue(t, c, q).log == c.log + added
    ensures AllDieOnce(added, q)
    decreases |q|
  {
    if q == [] {
      added := [];
    } else {
      hide AllDieOnce, OneLife;
      var c' := Run(t, c, q[0].0, q[0].1);
      var seg := RunLife(t, c, q[0].0, q[0].1);
      var rest := QueueLives(t, c', q[1..]);
      assert FoldQueue(t, c, q) == FoldQueue(t, c', q[1..]);
      assert c.log + seg + rest == c.log + (seg + rest);
      added := seg + rest;
      LivesCombine(seg, rest, q);
    }
  }

  lemma LivesCombine(seg: seq<Entry>, rest: seq<Entry>, q: Queue)
    requires q != [] && DistinctParams(q) && OneLife(seg, q[0].1)
    requires AllDieOnce(rest, q[1..])
    ensures AllDieOnce(seg + rest, q)
  {
    var p := q[0].1;
    forall e | e in rest ensures e.p != p && exists k | 0 <= k < |q| :: q[k].1 == e.p {
      var k :| 0 <= k < |q[1..]| && q[1..][k].1 == e.p;
      assert q[k + 1] == q[1..][k];
    }
    FirstDies(seg, rest, p);
    forall k | 1 <= k < |q| ensures DeletedOnceAfterLastUse(seg + rest, q[k].1) {
      assert q[k] == q[1..][k - 1];
      LaterDies(seg, rest, p, q[k].1);
    }
    forall e | e in seg ensures q[0].1 == e.p {
    }
  }

  lemma FirstDies(seg: seq<Entry>, rest: seq<Entry>, p: Param)
    requires OneLife(seg, p) && forall e | e in rest :: e.p != p
    ensures DeletedOnceAfterLastUse(seg + rest, p)
  {
    var log := seg + rest;
    assert log[|seg| - 1] == Delete(p);
    forall i | |seg| - 1 < i < |log| ensures log[i].p != p {
      assert log[i] == rest[i - |seg|] && rest[i - |seg|] in rest;
    }
  }

  lemma LaterDies(seg: seq<Entry>, rest: seq<Entry>, p: Param, p': Param)
    requires OneLife(seg, p) && p' != p && DeletedOnceAfterLastUse(rest, p')
    ensures DeletedOnceAfterLastUse(seg + rest, p')
  {
    var d :| 0 <= d < |rest| && rest[d] == Delete(p')
             && (forall i | 0 <= i < d :: rest[i] != Delete(p'))
             && (forall i | d < i < |rest| :: rest[i].p != p');
    var log := seg + rest;
    assert log[|seg| + d] == rest[d];
    assert forall i | 0 <= i < |seg| :: log[i] == seg[i] && seg[i].p == p;
    assert forall i | |seg| <= i < |log| :: log[i] == rest[i - |seg|];
  }

  // ---------- The handler ----------

  class FsmHandler<M(!new)> {
    const table: seq<Row<M>>
    var machine: M
    var currentState: State
    var eventQueue: Queue
    var isPendingEvent: bool
    var isInitialized: bool
    ghost var log: seq<Entry>

    /** Between calls nothing is queued and no action is running. */
    ghost predicate Quiescent()
      reads this
    {
      eventQueue == [] && !isPendingEvent
    }

    ghost function Context(): Ctx<M>
      reads this
    {
      Ctx(currentState, machine, log)
    }

    constructor (table: seq<Row<M>>, machine: M)
      ensures Quiescent() && !isInitialized && this.table == table && this.machine == machine && log == []
    {
      this.table, this.machine := table, machine;
      currentState, eventQueue, isPendingEvent, isInitialized, log := 0, [], false, false, [];
    }

    method Initialize(state: State)
      modifies this
      ensures currentState == state && isInitialized && machine == old(machine) && log == old(log)
      ensures eventQueue == old(eventQueue) && isPendingEvent == old(isPendingEvent)
    {
      currentState, isInitialized := state, true;
    }

    method ProcessEvent(ev: int, param: Param) returns (result: bool)
      requires !isPendingEvent
      modifies `machine, `currentState, `isPendingEvent, `log
      ensures (Context(), result) == Scan(table, 0, old(Context()), ev, param) && !isPendingEvent
      ensures exists trial | Trial(table, old(Context()), ev, param, trial) ::
                Ended(table, old(Context()), ev, param, trial, Context(), result)
      ensures result ==> exists k | 0 <= k < |table| ::
                table[k].start == old(currentState) && table[k].event == ev && currentState == table[k].next
      ensures !result ==> currentState == old(currentState)
      ensures (forall k | 0 <= k < |table| :: !(table[k].start == old(currentState) && table[k].event == ev)) ==>
                !result && machine == old(machine) && log == old(log)
    {
      result := false;
      hide Trial, Ended;
      ScanFollowsTable(table, Context(), ev, param);
      for i := 0 to |table|
        invariant !result && !isPendingEvent
        invariant Scan(table, i, Context(), ev, param) == Scan(table, 0, old(Context()), ev, param)
      {
        if currentState == table[i].start {
          if ev == table[i].event {
            var conditionSatisfied := false;
            if table[i].cond.Some? {
              var (data, ok) := table[i].cond.value(machine, param);
              machine, conditionSatisfied := data, ok;
              log := log + [Guard(i, param)];
            }
            if conditionSatisfied || table[i].cond.None? {
              isPendingEvent := true;
              if table[i].fn.Some? {
                machine := table[i].fn.value(machine, param);
                log := log + [Action(i, param)];
              }
              isPendingEvent := false;
              currentState := table[i].next;
              return true;
            }
          }
        }
      }
    }

    method PushAnyIfGuard(rescue: Param) returns (isGuard: bool)
      modifies `eventQueue
      ensures isGuard == HasAny(table, currentState)
      ensures isGuard <==> exists i | 0 <= i < |table| :: table[i].start == currentState && table[i].event == ANY_EVENT
      ensures eventQueue == if isGuard then [(ANY_EVENT, rescue)] + old(eventQueue) else old(eventQueue)
    {
      isGuard := false;
      for i := 0 to |table|
        invariant !isGuard && eventQueue == old(eventQueue)
        invariant forall k | 0 <= k < i :: !(table[k].start == currentState && table[k].event == ANY_EVENT)
      {
        if currentState == table[i].start && table[i].event == ANY_EVENT {
          eventQueue := [(ANY_EVENT, rescue)] + eventQueue;
          return true;
        }
      }
    }

    /** The drain loop.  By `LoopIsFold` its precondition is exactly that the loop stops. */
    method RunStateMachine()
      requires !isPendingEvent && QueueCompletes(table, Context(), eventQueue)
      modifies `machine, `currentState, `isPendingEvent, `log, `eventQueue
      ensures Quiescent()
      ensures Context() == FoldQueue(table, old(Context()), old(eventQueue))
    {
      ghost var left: nat := 0;
      if eventQueue != [] {
        left :| CompletesIn(table, Context(), eventQueue[0].0, eventQueue[0].1, left);
      }
      while eventQueue != []
        invariant !isPendingEvent && QueueCompletes(table, Context(), eventQueue)
        invariant FoldQueue(table, Context(), eventQueue) == FoldQueue(table, old(Context()), old(eventQueue))
        invariant eventQueue != [] ==> CompletesIn(table, Context(), eventQueue[0].0, eventQueue[0].1, left)
        decreases |eventQueue|, left
      {
        ghost var g := Cfg(Context(), eventQueue);
        TurnKeepsFold(table, g);
        var _ := ProcessEvent(eventQueue[0].0, eventQueue[0].1);
        var rescue := eventQueue[0].1;
        eventQueue := eventQueue[1..];
        var kept := PushAnyIfGuard(rescue);
        if !kept {
          log := log + [Delete(rescue)];
          if eventQueue != [] {
            assert Completes(table, Turn(table, g).c, eventQueue[0].0, eventQueue[0].1);
            left :| CompletesIn(table, Context(), eventQueue[0].0, eventQueue[0].1, left);
          }
        } else {
          left := left - 1;
        }
        assert Cfg(Context(), eventQueue) == Turn(table, g);
      }
    }

    /** Fires one event and runs it to completion.  Before `Initialize` the event is dropped and its
        parameter is neither used nor deleted. */
    method FireEvent(ev: int, param: Param)
      requires Quiescent()
      requires isInitialized ==> Completes(table, Context(), ev, param)
      modifies `machine, `currentState, `isPendingEvent, `log, `eventQueue
      ensures Quiescent()
      ensures Context() == if isInitialized then Run(table, old(Context()), ev, param) else old(Context())
    {
      if isInitialized {
        eventQueue := eventQueue + [(ev, param)];
        assert eventQueue == [(ev, param)] && eventQueue[1..] == [];
        if !isPendingEvent {
          RunStateMachine();
        }
      }
    }
  }

  /** Firing events one call at a time computes the fold of the whole list, and deletes every parameter once. */
  method FireAll<M(!new)>(table: seq<Row<M>>, machine: M, start: State, q: Queue)
    returns (state: State, data: M, ghost log: seq<Entry>)
    requires QueueCompletes(table, Ctx(start, machine, []), q)
    ensures state == FoldQueue(table, Ctx(start, machine, []), q).state
    ensures data == FoldQueue(table, Ctx(start, machine, []), q).data
    ensures log == FoldQueue(table, Ctx(start, machine, []), q).log
    ensures DistinctParams(q) ==> forall k | 0 <= k < |q| :: DeletedOnceAfterLastUse(log, q[k].1)
  {
    var c: Ctx<M> := Ctx(start, machine, []);
    var fsm := new FsmHandler(table, machine);
    fsm.Initialize(start);
    for k := 0 to |q|
      invariant fresh(fsm) && fsm.Quiescent() && fsm.isInitialized && fsm.table == table
      invariant QueueCompletes(table, c, q[..k]) && fsm.Context() == FoldQueue(table, c, q[..k])
    {
      assert q[..k + 1] == q[..k] + [(q[k].0, q[k].1)];
      PrefixCompletes(table, c, q, k + 1);
      FoldSnoc(table, c, q[..k], q[k].0, q[k].1);
      fsm.FireEvent(q[k].0, q[k].1);
    }
    assert q[..|q|] == q;
    state, data, log := fsm.currentState, fsm.machine, fsm.log;
    if DistinctParams(q) {
      ParametersDieOnce(table, c, q);
      assert log[|c.log|..] == log;
    }
  }

  lemma {:induction false} PrefixCompletes<M>(t: seq<Row<M>>, c: Ctx<M>, q: Queue, k: nat)
    requires k <= |q| && QueueCompletes(t, c, q)
    ensures QueueCompletes(t, c, q[..k])
    decreases |q|
  {
    if k > 0 {
      assert q[..k][1..] == q[1..][..k - 1];
      PrefixCompletes(t, Run(t, c, q[0].0, q[0].1), q[1..], k - 1);
    }
  }
}
