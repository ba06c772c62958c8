/**
 Whose callback is it?  When callback events come from timer threads only, each one queued for a listed timer either
 was posted by the timer's current run or was queued already when that run began; a timer's callback is invoked for
 its own interval exactly when none of the latter is left.
 */
module WorkerOrigins {
  import opened Workers
  import opened WorkerRuns
  import T = Timers

  /** The restriction under which callbacks have an owner: nobody but a timer's thread posts a callback event. */
  predicate FromThreads(a: Action) { !(a.Post? && a.e.TimerCallback?) }

  predicate AllFromThreads(run: seq<Action>) { forall a | a in run :: FromThreads(a) }

  /** How many events had been posted before the `i`-th queued one. */
  function Number(s: Sys, i: nat): int { s.sent - |s.queue| + i }

  /** The timer has a thread, running or finished but not joined. */
  predicate HasThread(s: Sys, t: Timer) { t in s.timers && s.timers[t].thread != T.NoThread }

  /** The `i`-th queued event was posted by the current run of `t`. */
  predicate IsOwn(s: Sys, i: nat, t: Timer) {
    i < |s.posters| && t in s.timers && s.posters[i] == Ring(t, s.timers[t].starts)
  }

  /** The `i`-th queued event is a callback for `t` that was in the queue already when `t` was begun. */
  predicate IsStale(s: Sys, i: nat, t: Timer) {
    i < |s.queue| && s.queue[i] == TimerCallback(t.id) && t in s.since && Number(s, i) < s.since[t]
  }

  // ---------- What every step keeps ----------

  ghost predicate Counted(s: Sys) {
    && |s.posters| == |s.queue| <= s.sent
    && forall t | HasThread(s, t) :: t in s.since && s.since[t] <= s.sent
  }

  /** A thread that may still post belongs to a listed timer, unless its id is zero. */
  ghost predicate ActiveListed(s: Sys) {
    forall t | t in s.timers && T.Active(s.timers[t]) && t.id != 0 :: t in s.list
  }

  /** No posting is from a run to come, and the run of a posting is past it. */
  ghost predicate RoundsOk(s: Sys) {
    forall i | 0 <= i < |s.posters| && s.posters[i].Ring? ::
      var t := s.posters[i].t;
      && t in s.timers && s.posters[i].round <= s.timers[t].starts
      && (s.posters[i].round == s.timers[t].starts ==> !T.Active(s.timers[t]))
  }

  /** Callbacks for a listed timer that were posted since it was begun are its own. */
  ghost predicate OwnSince(s: Sys) {
    forall t, i: nat | t in s.list && HasThread(s, t) && i < |s.queue| && s.queue[i] == TimerCallback(t.id) ::
      IsOwn(s, i, t) <==> !IsStale(s, i, t)
  }

  ghost predicate Traced(s: Sys) { Counted(s) && ActiveListed(s) && RoundsOk(s) && OwnSince(s) }

  lemma InitTraced()
    ensures Sound(INIT) && Traced(INIT)
  {
  }

  lemma {:induction false} PostKeepsTraced(s: Sys, e: Event)
    requires Sound(s) && Traced(s) && Enabled(s, Post(e)) && !e.TimerCallback?
    ensures Traced(Next(s, Post(e)))
  {
    var r := Next(s, Post(e));
    forall t, i: nat | t in r.list && HasThread(r, t) && i < |r.queue| && r.queue[i] == TimerCallback(t.id)
      ensures IsOwn(r, i, t) <==> !IsStale(r, i, t)
    {
      assert IsOwn(s, i, t) == IsOwn(r, i, t) && IsStale(s, i, t) == IsStale(r, i, t);
    }
  }

  lemma {:induction false} DispatchKeepsTraced(s: Sys)
    requires Sound(s) && Traced(s) && Enabled(s, Dispatch)
    ensures Traced(Next(s, Dispatch))
  {
    var r := Next(s, Dispatch);
    forall t, i: nat | t in r.list && HasThread(r, t) && i < |r.queue| && r.queue[i] == TimerCallback(t.id)
      ensures IsOwn(r, i, t) <==> !IsStale(r, i, t)
    {
      assert r.queue[i] == s.queue[i + 1] && IsOwn(s, i + 1, t) == IsOwn(r, i, t)
          && IsStale(s, i + 1, t) == IsStale(r, i, t);
    }
  }

  lemma {:induction false} ThreadKeepsTraced(s: Sys, u: Timer, b: T.Action)
    requires Sound(s) && Traced(s) && Enabled(s, Thread(u, b))
    ensures Traced(Next(s, Thread(u, b)))
  {
    hide OwnSince, T.Live, T.Stopping, T.Stopped, ListOk;
    T.ThreadKeepsPhase(s.timers[u], b);
    ThreadKeepsOwn(s, u, b);
  }

  lemma {:induction false} ThreadKeepsOwn(s: Sys, u: Timer, b: T.Action)
    requires ListOk(s.list) && Counted(s) && ActiveListed(s) && OwnSince(s) && Enabled(s, Thread(u, b))
    ensures OwnSince(Next(s, Thread(u, b)))
  {
    var r := Next(s, Thread(u, b));
    assert r.timers[u].starts == s.timers[u].starts && T.Active(s.timers[u]) && HasThread(r, u);
    forall t, i: nat | t in r.list && HasThread(r, t) && i < |r.queue| && r.queue[i] == TimerCallback(t.id)
      ensures IsOwn(r, i, t) <==> !IsStale(r, i, t)
    {
      if i < |s.queue| {
        assert IsOwn(s, i, t) == IsOwn(r, i, t) && IsStale(s, i, t) == IsStale(r, i, t);
      } else {
        assert u.id == t.id && t in s.list && u in s.list && t.id != 0;
        FindUnique(s.list, t);
        FindUnique(s.list, u);
      }
    }
  }

  lemma {:induction false} ExecKeepsTraced(s: Sys)
    requires Sound(s) && Traced(s) && Enabled(s, Exec)
    ensures Traced(Next(s, Exec))
  {
    hide OwnSince;
    match s.todo {
      case Drop(t, _) => WithoutSpec(s.list, t.id);
      case Enlist(t) => WithSpec(s.list, t);
      case _ =>
    }
    ExecKeepsOwn(s);
  }

  lemma {:induction false} ExecKeepsOwn(s: Sys)
    requires Sound(s) && Counted(s) && RoundsOk(s) && OwnSince(s) && Enabled(s, Exec)
    ensures OwnSince(Next(s, Exec))
  {
    hide QueueOk;
    var r := Next(s, Exec);
    match s.todo {
      case Drop(t, _) => WithoutSpec(s.list, t.id);
      case Enlist(t) => WithSpec(s.list, t);
      case _ =>
    }
    forall t, i: nat | t in r.list && HasThread(r, t) && i < |r.queue| && r.queue[i] == TimerCallback(t.id)
      ensures IsOwn(r, i, t) <==> !IsStale(r, i, t)
    {
      if !(s.todo.Begin? && s.todo.t == t) {
        assert HasThread(s, t) && t in s.list;
        assert IsOwn(s, i, t) == IsOwn(r, i, t) && IsStale(s, i, t) == IsStale(r, i, t);
      }
    }
  }

  lemma {:induction false} StepKeepsTraced(s: Sys, a: Action)
    requires Sound(s) && Traced(s) && Enabled(s, a) && FromThreads(a)
    ensures Sound(Next(s, a)) && Traced(Next(s, a))
  {
    hide Sound, Traced;
    StepKeepsSound(s, a);
    match a {
      case Post(e) => PostKeepsTraced(s, e);
      case Dispatch => DispatchKeepsTraced(s);
      case Exec => ExecKeepsTraced(s);
      case Thread(t, b) => ThreadKeepsTraced(s, t, b);
    }
  }

  lemma {:induction false} RunKeepsTraced(s: Sys, run: seq<Action>)
    requires Sound(s) && Traced(s) && Legal(s, run) && AllFromThreads(run)
    ensures Sound(After(s, run)) && Traced(After(s, run))
    decreases |run|
  {
    hide Sound, Traced, Next, Enabled;
    if run != [] {
      assert run[0] in run && forall a | a in run[1..] :: a in run;
      StepKeepsTraced(s, run[0]);
      RunKeepsTraced(Next(s, run[0]), run[1..]);
    }
  }

  // ---------- Whose callback is dispatched ----------

  /** In every run whose callback events come from timer threads: the callback at the front of the queue was posted by
      the current run of the listed timer it is dispatched to exactly when none of the callbacks queued when that timer
      was begun is still in the queue; and then the timer's own interval has passed. */
  lemma {:induction false} OwnCallbackIff(run: seq<Action>, t: Timer)
    requires Legal(INIT, run) && AllFromThreads(run)
    requires var s := After(INIT, run);
             s.todo == Done && s.queue != [] && s.queue[0] == TimerCallback(t.id) && t in s.list
    ensures var s := After(INIT, run);
            && (IsOwn(s, 0, t) <==> !(exists i: nat :: IsStale(s, i, t)))
            && (IsOwn(s, 0, t) ==> s.timers[t].thread == T.Finished(true))
  {
    hide Legal, After;
    InitTraced();
    RunKeepsTraced(INIT, run);
    FrontOwnIff(After(INIT, run), t);
  }

  lemma FrontOwnIff(s: Sys, t: Timer)
    requires Sound(s) && Traced(s)
    requires s.todo == Done && s.queue != [] && s.queue[0] == TimerCallback(t.id) && t in s.list
    ensures HasThread(s, t)
    ensures IsOwn(s, 0, t) <==> !(exists i: nat :: IsStale(s, i, t))
    ensures IsOwn(s, 0, t) ==> s.timers[t].thread == T.Finished(true)
  {
    assert T.Live(s.timers[t]) && HasThread(s, t);
    assert IsOwn(s, 0, t) <==> !IsStale(s, 0, t);
    if i: nat :| IsStale(s, i, t) {
      assert Number(s, 0) <= Number(s, i);
    }
  }

  // ---------- When every callback is for its own interval ----------

  /** Whenever a timer is begun, no callback for its id is in the queue. */
  predicate BegunAfresh(s: Sys, run: seq<Action>)
    requires Legal(s, run)
    decreases |run|
  {
    run != [] ==>
      && (run[0].Exec? && s.todo.Begin? ==> CallbacksQueued(s.queue, s.todo.t.id) == 0)
      && BegunAfresh(Next(s, run[0]), run[1..])
  }

  ghost predicate NoneStale(s: Sys) {
    && (forall t, i: nat | t in s.list && HasThread(s, t) :: !IsStale(s, i, t))
    && (s.todo.Call? ==> s.todo.t in s.timers && s.timers[s.todo.t].thread == T.Finished(true))
  }

  lemma {:induction false} NoneQueued(queue: seq<Event>, id: nat)
    requires CallbacksQueued(queue, id) == 0
    ensures TimerCallback(id) !in queue
    decreases |queue|
  {
    if queue != [] {
      NoneQueued(queue[..|queue| - 1], id);
    }
  }

  lemma {:induction false} DispatchKeepsNoneStale(s: Sys)
    requires Sound(s) && Traced(s) && NoneStale(s) && Enabled(s, Dispatch)
    ensures NoneStale(Next(s, Dispatch))
  {
    var r := Next(s, Dispatch);
    forall t, i: nat | t in r.list && HasThread(r, t) ensures !IsStale(r, i, t) {
      assert !IsStale(s, i + 1, t);
    }
    if r.todo.Call? {
      FindSpec(s.list, s.queue[0].id);
      FrontOwnIff(s, r.todo.t);
    }
  }

  lemma {:induction false} StepKeepsNoneStale(s: Sys, a: Action)
    requires Sound(s) && Traced(s) && NoneStale(s) && Enabled(s, a) && FromThreads(a)
    requires a.Exec? && s.todo.Begin? ==> CallbacksQueued(s.queue, s.todo.t.id) == 0
    ensures NoneStale(Next(s, a))
  {
    hide CallbacksQueued;
    match a {
      case Dispatch => DispatchKeepsNoneStale(s);
      case Exec => ExecKeepsNoneStale(s);
      case _ =>
        var r := Next(s, a);
        forall t, i: nat | t in r.list && HasThread(r, t) ensures !IsStale(r, i, t) {
          assert !IsStale(s, i, t);
        }
    }
  }

  lemma {:induction false} ExecKeepsNoneStale(s: Sys)
    requires Sound(s) && Traced(s) && NoneStale(s) && Enabled(s, Exec)
    requires s.todo.Begin? ==> CallbacksQueued(s.queue, s.todo.t.id) == 0
    ensures NoneStale(Next(s, Exec))
  {
    hide CallbacksQueued;
    var r := Next(s, Exec);
    match s.todo {
      case Drop(t, _) => WithoutSpec(s.list, t.id);
      case Begin(t) => NoneQueued(s.queue, t.id);
      case _ =>
    }
    forall t, i: nat | t in r.list && HasThread(r, t) ensures !IsStale(r, i, t) {
      if !(s.todo.Begin? && s.todo.t == t) {
        assert t in s.list && HasThread(s, t) && !IsStale(s, i, t);
      }
    }
  }

  /** In every run whose callback events come from timer threads and whose timers are begun afresh, a timer's callback
      is about to be invoked only when that timer's own interval has passed. */
  lemma {:induction false} OwnIntervalOnly(run: seq<Action>)
    requires Legal(INIT, run) && AllFromThreads(run) && BegunAfresh(INIT, run)
    ensures var s := After(INIT, run);
            s.todo.Call? ==> s.todo.t in s.timers && s.timers[s.todo.t].thread == T.Finished(true)
  {
    InitTraced();
    RunKeepsNoneStale(INIT, run);
  }

  lemma {:induction false} RunKeepsNoneStale(s: Sys, run: seq<Action>)
    requires Sound(s) && Traced(s) && NoneStale(s)
    requires Legal(s, run) && AllFromThreads(run) && BegunAfresh(s, run)
    ensures NoneStale(After(s, run))
    decreases |run|
  {
    hide Sound, Traced, NoneStale, CallbacksQueued, Next, Enabled;
    if run != [] {
      assert run[0] in run && forall a | a in run[1..] :: a in run;
      StepKeepsTraced(s, run[0]);
      StepKeepsNoneStale(s, run[0]);
      RunKeepsNoneStale(Next(s, run[0]), run[1..]);
    }
  }
}
