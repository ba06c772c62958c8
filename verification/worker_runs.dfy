/**
 Whole runs of a worker with its timers: posts from any thread, dispatches, the single steps of the program of
 the event being dispatched, and the steps of every timer thread, interleaved in any order.
 */
module WorkerRuns {
  import opened Common
  import opened Workers
  import T = Timers

  /** `Ended` and `Begun` mark the return of `Stop` and the call of `Start`. */
  datatype Obs = Posted(e: Event) | Dispatched(e: Event) | Invoked(t: Timer) | Ended(t: Timer) | Begun(t: Timer)

  /** Who posted an event: a timer's thread, in the timer's `round`-th run, or anyone else. */
  datatype Poster = Outside | Ring(t: Timer, round: nat)

  /** Besides the state proper: who posted each queued event (`posters`), how many events were posted so far (`sent`),
      and how many had been when a timer was last begun (`since`). */
  datatype Sys = Sys(
    timers: map<Timer, T.TimerState>,
    list: seq<Timer>,
    queue: seq<Event>,
    posters: seq<Poster>,
    sent: nat,
    since: map<Timer, nat>,
    todo: Todo,
    log: seq<Obs>)

  const INIT := Sys(map[], [], [], [], 0, map[], Done, [])

  datatype Action = Post(e: Event) | Dispatch | Exec | Thread(t: Timer, a: T.Action)

  /** A start event carries a new timer object; the join waits for the thread to finish. */
  predicate Enabled(s: Sys, a: Action) {
    match a
    case Post(e) => e.TimerStart? ==> e.t !in s.timers
    case Dispatch => s.todo == Done && s.queue != []
    case Exec => s.todo != Done && (s.todo.Await? ==> s.todo.t in s.timers && T.Enabled(s.timers[s.todo.t], T.Join))
    case Thread(t, b) => t in s.timers && T.ByThread(b) && T.Enabled(s.timers[t], b)
  }

  function OnTimer(timers: map<Timer, T.TimerState>, t: Timer, a: T.Action): map<Timer, T.TimerState> {
    if t in timers then timers[t := T.Next(timers[t], a)] else timers
  }

  /** What one step of a program does to the timer objects. */
  function TimersStep(timers: map<Timer, T.TimerState>, todo: Todo): map<Timer, T.TimerState> {
    match todo
    case Halt(t, _) => OnTimer(timers, t, T.Unlock)
    case Await(t, _) => OnTimer(timers, t, T.Join)
    case Begin(t) => OnTimer(timers, t, T.Start)
    case _ => timers
  }

  function Send(s: Sys, e: Event, who: Poster): Sys {
    s.(queue := s.queue + [e], posters := s.posters + [who], sent := s.sent + 1, log := s.log + [Posted(e)])
  }

  /** The log after one step of a program: the call it makes on a timer, if any. */
  function Noted(log: seq<Obs>, todo: Todo): seq<Obs> {
    match todo
    case Call(t) => log + [Invoked(t)]
    case Await(t, _) => log + [Ended(t)]
    case Begin(t) => log + [Begun(t)]
    case _ => log
  }

  function Next(s: Sys, a: Action): Sys
    requires Enabled(s, a)
  {
    match a
    case Post(e) =>
      var s' := Send(s, e, Outside);
      if e.TimerStart? then s'.(timers := s.timers[e.t := T.IDLE]) else s'
    case Dispatch =>
      s.(queue := s.queue[1..], posters := if s.posters == [] then [] else s.posters[1..],
         todo := Plan(s.list, s.queue[0]), log := s.log + [Dispatched(s.queue[0])])
    case Exec =>
      s.(timers := TimersStep(s.timers, s.todo), list := ListStep(s.list, s.todo), todo := Advance(s.todo),
         since := if s.todo.Begin? then s.since[s.todo.t := s.sent] else s.since, log := Noted(s.log, s.todo))
    case Thread(t, b) =>
      var s' := s.(timers := OnTimer(s.timers, t, b));
      if b == T.Post then Send(s', TimerCallback(t.id), Ring(t, s.timers[t].starts)) else s'
  }

  predicate Legal(s: Sys, run: seq<Action>)
    decreases |run|
  {
    run != [] ==> Enabled(s, run[0]) && Legal(Next(s, run[0]), run[1..])
  }

  function After(s: Sys, run: seq<Action>): Sys
    requires Legal(s, run)
    decreases |run|
  {
    if run == [] then s else After(Next(s, run[0]), run[1..])
  }

  // ---------- The timer list and the timers ----------

  /** A timer waiting to be enlisted or started by the current program. */
  predicate InTodo(todo: Todo, t: Timer) {
    match todo
    case Halt(_, ThenDrop(Some(u))) => u == t
    case Await(_, ThenDrop(Some(u))) => u == t
    case Drop(_, Some(u)) => u == t
    case Enlist(u) => u == t
    case Begin(u) => u == t
    case _ => false
  }

  /** The current program has already begun to stop this timer, or has yet to start it. */
  predicate Busy(todo: Todo, t: Timer) { (todo.Await? || todo.Drop? || todo.Begin?) && todo.t == t }

  predicate Fresh(timers: map<Timer, T.TimerState>, t: Timer) { t in timers && timers[t] == T.IDLE }

  ghost predicate TimersOk(s: Sys) {
    forall t | t in s.timers :: s.timers[t] == T.IDLE || T.Live(s.timers[t]) || T.Stopping(s.timers[t])
  }

  /** Every listed timer is running with its one thread, except the one the current program is handling. */
  ghost predicate ListedOk(s: Sys) {
    && ListOk(s.list)
    && forall t | t in s.list :: t in s.timers && (Busy(s.todo, t) || T.Live(s.timers[t]))
  }

  ghost predicate NextOk(s: Sys, t: Timer, next: Option<Timer>) {
    next.Some? ==> next.value.id == t.id && next.value != t && Fresh(s.timers, next.value)
  }

  ghost predicate TodoOk(s: Sys) {
    match s.todo
    case Done => true
    case Call(t) => t in s.list
    case Halt(t, ThenBegin) => t in s.list && t.cyclic
    case Halt(t, ThenDrop(n)) => t in s.list && NextOk(s, t, n)
    case Await(t, ThenBegin) => t in s.list && t in s.timers && T.Stopping(s.timers[t]) && t.cyclic
    case Await(t, ThenDrop(n)) => t in s.list && t in s.timers && T.Stopping(s.timers[t]) && NextOk(s, t, n)
    case Drop(t, n) => t in s.list && t in s.timers && T.Stopped(s.timers[t]) && NextOk(s, t, n)
    case Enlist(u) => Fresh(s.timers, u) && Find(s.list, u.id).None?
    case Begin(u) => u in s.timers && (Fresh(s.timers, u) || (T.Stopped(s.timers[u]) && u.cyclic && u in s.list))
                     && (u.id != 0 ==> u in s.list)
  }

  /** Timers waiting in the queue are new, queued once, and not waiting in the current program as well. */
  ghost predicate QueueOk(s: Sys) {
    && (forall i | 0 <= i < |s.queue| && s.queue[i].TimerStart? ::
          Fresh(s.timers, s.queue[i].t) && !InTodo(s.todo, s.queue[i].t))
    && (forall i, j | 0 <= i < j < |s.queue| && s.queue[i].TimerStart? && s.queue[j].TimerStart? ::
          s.queue[i].t != s.queue[j].t)
  }

  ghost predicate Sound(s: Sys) { TimersOk(s) && ListedOk(s) && TodoOk(s) && QueueOk(s) }

  lemma PostKeepsSound(s: Sys, e: Event)
    requires Sound(s) && Enabled(s, Post(e))
    ensures Sound(Next(s, Post(e)))
  {
  }

  lemma DispatchKeepsSound(s: Sys)
    requires Sound(s) && Enabled(s, Dispatch)
    ensures Sound(Next(s, Dispatch))
  {
    var e := s.queue[0];
    match e {
      case TimerStart(t) => FindSpec(s.list, t.id);
      case TimerStop(id) => FindSpec(s.list, id);
      case TimerCallback(id) => FindSpec(s.list, id);
      case _ =>
    }
  }

  /** The thread's step changes its own timer's state and nothing else. */
  lemma ThreadChanges(s: Sys, t: Timer, b: T.Action)
    requires TimersOk(s) && Enabled(s, Thread(t, b))
    ensures var r := Next(s, Thread(t, b));
            && r.list == s.list && r.todo == s.todo && r.timers == s.timers[t := T.Next(s.timers[t], b)]
            && (r.queue == s.queue || r.queue == s.queue + [TimerCallback(t.id)])
  {
  }

  lemma {:induction false} ThreadKeepsSound(s: Sys, t: Timer, b: T.Action)
    requires Sound(s) && Enabled(s, Thread(t, b))
    ensures Sound(Next(s, Thread(t, b)))
  {
    hide TodoOk, QueueOk, ListedOk, Next, T.Next, T.Live, T.Stopping, T.Stopped;
    var r := Next(s, Thread(t, b));
    ThreadChanges(s, t, b);
    T.ThreadKeepsPhase(s.timers[t], b);
    ThreadKeepsListed(s, r, t);
    ThreadKeepsTodo(s, r, t);
    ThreadKeepsQueue(s, r, t);
  }

  /** Only the state of `t` differs, and its phase is the same. */
  ghost predicate PhaseKept(s: Sys, r: Sys, t: Timer) {
    && t in s.timers && r.list == s.list && r.todo == s.todo
    && r.timers.Keys == s.timers.Keys && (forall u | u in s.timers && u != t :: r.timers[u] == s.timers[u])
    && s.timers[t] != T.IDLE && !T.Stopped(s.timers[t])
    && (T.Live(s.timers[t]) ==> T.Live(r.timers[t])) && (T.Stopping(s.timers[t]) ==> T.Stopping(r.timers[t]))
  }

  lemma {:induction false} ThreadKeepsListed(s: Sys, r: Sys, t: Timer)
    requires ListedOk(s) && PhaseKept(s, r, t)
    ensures ListedOk(r)
  {
    hide T.Live, T.Stopping, T.Stopped, ListOk;
  }

  lemma {:induction false} ThreadKeepsTodo(s: Sys, r: Sys, t: Timer)
    requires TodoOk(s) && PhaseKept(s, r, t)
    ensures TodoOk(r)
  {
    hide T.Live, T.Stopping, T.Stopped, Find;
  }

  lemma {:induction false} ThreadKeepsQueue(s: Sys, r: Sys, t: Timer)
    requires QueueOk(s) && PhaseKept(s, r, t) && (r.queue == s.queue || r.queue == s.queue + [TimerCallback(t.id)])
    ensures QueueOk(r)
  {
    hide T.Live, T.Stopping, T.Stopped;
  }

  lemma {:induction false} ExecKeepsSound(s: Sys)
    requires Sound(s) && Enabled(s, Exec)
    ensures Sound(Next(s, Exec))
  {
    hide Sound, Next;
    match s.todo {
      case Halt(_, _) => HaltKeepsSound(s);
      case Await(_, _) => AwaitKeepsSound(s);
      case Drop(_, _) => DropKeepsSound(s);
      case Enlist(_) => EnlistKeepsSound(s);
      case Begin(_) => BeginKeepsSound(s);
      case _ => CallKeepsSound(s);
    }
  }

  lemma CallKeepsSound(s: Sys)
    requires Sound(s) && s.todo.Call?
    ensures Sound(Next(s, Exec))
  {
  }

  lemma HaltKeepsSound(s: Sys)
    requires Sound(s) && s.todo.Halt?
    ensures Sound(Next(s, Exec))
  {
    T.StepKeepsConsistent(s.timers[s.todo.t], T.Unlock);
  }

  lemma AwaitKeepsSound(s: Sys)
    requires Sound(s) && s.todo.Await? && Enabled(s, Exec)
    ensures Sound(Next(s, Exec))
  {
    T.StepKeepsConsistent(s.timers[s.todo.t], T.Join);
  }

  lemma DropKeepsSound(s: Sys)
    requires Sound(s) && s.todo.Drop?
    ensures Sound(Next(s, Exec))
  {
    WithoutSpec(s.list, s.todo.t.id);
    FindSpec(Without(s.list, s.todo.t.id), s.todo.t.id);
  }

  lemma EnlistKeepsSound(s: Sys)
    requires Sound(s) && s.todo.Enlist?
    ensures Sound(Next(s, Exec))
  {
    WithSpec(s.list, s.todo.t);
  }

  lemma BeginKeepsSound(s: Sys)
    requires Sound(s) && s.todo.Begin?
    ensures Sound(Next(s, Exec))
  {
    T.StepKeepsConsistent(s.timers[s.todo.t], T.Start);
  }

  lemma StepKeepsSound(s: Sys, a: Action)
    requires Sound(s) && Enabled(s, a)
    ensures Sound(Next(s, a))
  {
    match a {
      case Post(e) => PostKeepsSound(s, e);
      case Dispatch => DispatchKeepsSound(s);
      case Exec => ExecKeepsSound(s);
      case Thread(t, b) => ThreadKeepsSound(s, t, b);
    }
  }

  // ---------- Counting ----------

  function Last<X>(log: seq<X>): X
    requires log != []
  {
    log[|log| - 1]
  }

  /** How often this timer object's callback was invoked. */
  function Times(log: seq<Obs>, t: Timer): nat {
    if log == [] then 0 else Times(log[..|log| - 1], t) + if Last(log) == Invoked(t) then 1 else 0
  }

  /** How often a callback of any timer with this id was invoked. */
  function Invocations(log: seq<Obs>, id: nat): nat {
    if log == [] then 0
    else Invocations(log[..|log| - 1], id) + if Last(log).Invoked? && Last(log).t.id == id then 1 else 0
  }

  function CallbacksPosted(log: seq<Obs>, id: nat): nat {
    if log == [] then 0
    else CallbacksPosted(log[..|log| - 1], id) + if Last(log) == Posted(TimerCallback(id)) then 1 else 0
  }

  function CallbacksDispatched(log: seq<Obs>, id: nat): nat {
    if log == [] then 0
    else CallbacksDispatched(log[..|log| - 1], id) + if Last(log) == Dispatched(TimerCallback(id)) then 1 else 0
  }

  function CallbacksQueued(queue: seq<Event>, id: nat): nat {
    if queue == [] then 0
    else CallbacksQueued(queue[..|queue| - 1], id) + if Last(queue) == TimerCallback(id) then 1 else 0
  }

  lemma {:induction false} QueuedFront(queue: seq<Event>, id: nat)
    requires queue != []
    ensures CallbacksQueued(queue, id) ==
            CallbacksQueued(queue[1..], id) + if queue[0] == TimerCallback(id) then 1 else 0
    decreases |queue|
  {
    if |queue| > 1 {
      var n := |queue| - 1;
      QueuedFront(queue[..n], id);
      assert queue[..n][1..] == queue[1..][..n - 1];
    }
  }

  lemma Snoc<X>(log: seq<X>, o: X)
    ensures (log + [o])[..|log + [o]| - 1] == log && Last(log + [o]) == o
  {
  }

  /** Callbacks are conserved between posting and dispatching, and a callback runs only for one dispatched. */
  ghost predicate Conserved(s: Sys, id: nat) {
    && CallbacksPosted(s.log, id) == CallbacksDispatched(s.log, id) + CallbacksQueued(s.queue, id)
    && Invocations(s.log, id) + (if s.todo.Call? && s.todo.t.id == id then 1 else 0) <= CallbacksDispatched(s.log, id)
  }

  lemma CountSnoc(log: seq<Obs>, o: Obs, id: nat)
    ensures Invocations(log + [o], id) == Invocations(log, id) + if o.Invoked? && o.t.id == id then 1 else 0
    ensures CallbacksPosted(log + [o], id) == CallbacksPosted(log, id) + if o == Posted(TimerCallback(id)) then 1 else 0
    ensures CallbacksDispatched(log + [o], id) ==
            CallbacksDispatched(log, id) + if o == Dispatched(TimerCallback(id)) then 1 else 0
  {
  }

  lemma QueuedBack(queue: seq<Event>, e: Event, id: nat)
    ensures CallbacksQueued(queue + [e], id) == CallbacksQueued(queue, id) + if e == TimerCallback(id) then 1 else 0
  {
  }

  lemma {:induction false} StepKeepsConserved(s: Sys, a: Action, id: nat)
    requires Conserved(s, id) && Enabled(s, a)
    ensures Conserved(Next(s, a), id)
  {
    hide Invocations, CallbacksPosted, CallbacksDispatched, CallbacksQueued;
    match a {
      case Post(e) =>
        CountSnoc(s.log, Posted(e), id);
        QueuedBack(s.queue, e, id);
      case Dispatch =>
        CountSnoc(s.log, Dispatched(s.queue[0]), id);
        QueuedFront(s.queue, id);
        if s.queue[0].TimerCallback? {
          FindSpec(s.list, s.queue[0].id);
        }
      case Exec =>
        if Noted(s.log, s.todo) != s.log {
          CountSnoc(s.log, Last(Noted(s.log, s.todo)), id);
        }
      case Thread(t, b) =>
        CountSnoc(s.log, Posted(TimerCallback(t.id)), id);
        QueuedBack(s.queue, TimerCallback(t.id), id);
    }
  }

  // ---------- One-shot timers ----------

  /** The program is past the callback of this timer. */
  predicate Past(todo: Todo, t: Timer) { (todo.Halt? || todo.Await? || todo.Drop?) && todo.t == t }

  ghost predicate OnceOk(s: Sys, t: Timer) {
    && (!t.cyclic ==> Times(s.log, t) <= 1)
    && (t !in s.timers || s.timers[t] == T.IDLE ==> Times(s.log, t) == 0)
    && (!t.cyclic && t in s.list && !Past(s.todo, t) ==> Times(s.log, t) == 0)
  }

  lemma TimesNext(s: Sys, a: Action, t: Timer)
    requires Enabled(s, a)
    ensures Times(Next(s, a).log, t) == Times(s.log, t) + if a.Exec? && s.todo == Todo.Call(t) then 1 else 0
  {
    var s' := Next(s, a);
    if s'.log != s.log {
      Snoc(s.log, Last(s'.log));
    }
  }

  lemma {:induction false} StepKeepsOnce(s: Sys, a: Action, t: Timer)
    requires Sound(s) && OnceOk(s, t) && Enabled(s, a)
    ensures OnceOk(Next(s, a), t)
  {
    hide Times, QueueOk;
    TimesNext(s, a, t);
    if a.Exec? {
      match s.todo {
        case Drop(u, _) => WithoutSpec(s.list, u.id);
        case Enlist(u) => WithSpec(s.list, u);
        case _ =>
      }
    }
  }

  // ---------- Stopped ids ----------

  /** The last start or stop dispatched for this id was a stop. */
  function StoppedLast(log: seq<Obs>, id: nat): bool {
    log != [] &&
    match Last(log)
    case Dispatched(TimerStop(i)) => i == id || StoppedLast(log[..|log| - 1], id)
    case Dispatched(TimerStart(u)) => u.id != id && StoppedLast(log[..|log| - 1], id)
    case _ => StoppedLast(log[..|log| - 1], id)
  }

  /** No invocation in the log came at a point where its id was stopped. */
  ghost predicate Silent(log: seq<Obs>) {
    forall j | 0 <= j < |log| && log[j].Invoked? :: !StoppedLast(log[..j], log[j].t.id)
  }

  /** The current program is removing this timer for good. */
  predicate Leaving(todo: Todo, t: Timer) {
    todo == Halt(t, ThenDrop(None)) || todo == Await(t, ThenDrop(None)) || todo == Drop(t, None)
  }

  ghost predicate SilentOk(s: Sys) {
    && Silent(s.log)
    && (forall t | t in s.list && StoppedLast(s.log, t.id) :: Leaving(s.todo, t))
    && (forall u :: InTodo(s.todo, u) ==> !StoppedLast(s.log, u.id))
  }

  lemma StoppedSnoc(log: seq<Obs>, o: Obs, id: nat)
    ensures StoppedLast(log + [o], id) ==
            match o
            case Dispatched(TimerStop(i)) => i == id || StoppedLast(log, id)
            case Dispatched(TimerStart(u)) => u.id != id && StoppedLast(log, id)
            case _ => StoppedLast(log, id)
  {
  }

  lemma {:induction false} SilentSnoc(log: seq<Obs>, o: Obs)
    requires Silent(log) && (o.Invoked? ==> !StoppedLast(log, o.t.id))
    ensures Silent(log + [o])
  {
    hide StoppedLast;
    assert forall j | 0 <= j < |log| :: (log + [o])[..j] == log[..j];
    assert (log + [o])[..|log|] == log;
  }

  lemma {:induction false} StepKeepsSilent(s: Sys, a: Action)
    requires Sound(s) && SilentOk(s) && Enabled(s, a)
    ensures SilentOk(Next(s, a))
  {
    match a {
      case Post(e) => LogKeepsSilent(s, Posted(e));
      case Dispatch => DispatchKeepsSilent(s);
      case Exec => ExecKeepsSilent(s);
      case Thread(t, b) =>
        if b == T.Post {
          LogKeepsSilent(s, Posted(TimerCallback(t.id)));
        }
    }
  }

  /** Entries other than a dispatched start or stop change no id's standing. */
  lemma {:induction false} LogKeepsSilent(s: Sys, o: Obs)
    requires SilentOk(s) && !o.Dispatched? && (o.Invoked? ==> !StoppedLast(s.log, o.t.id))
    ensures SilentOk(s.(log := s.log + [o]))
  {
    hide StoppedLast, Silent;
    SilentSnoc(s.log, o);
    forall id ensures StoppedLast(s.log + [o], id) == StoppedLast(s.log, id) {
      StoppedSnoc(s.log, o, id);
    }
  }

  lemma {:induction false} ExecKeepsSilent(s: Sys)
    requires Sound(s) && SilentOk(s) && Enabled(s, Exec)
    ensures SilentOk(Next(s, Exec))
  {
    hide StoppedLast, Silent;
    match s.todo {
      case Call(t) =>
        LogKeepsSilent(s, Invoked(t));
      case Drop(u, _) => WithoutSpec(s.list, u.id);
      case Enlist(u) => WithSpec(s.list, u);
      case Await(t, _) => LogKeepsSilent(s, Ended(t));
      case Begin(t) => LogKeepsSilent(s, Begun(t));
      case _ =>
    }
  }

  lemma {:induction false} DispatchKeepsSilent(s: Sys)
    requires Sound(s) && SilentOk(s) && Enabled(s, Dispatch)
    ensures SilentOk(Next(s, Dispatch))
  {
    hide StoppedLast, Silent;
    var e := s.queue[0];
    SilentSnoc(s.log, Dispatched(e));
    forall id ensures StoppedLast(s.log + [Dispatched(e)], id) ==
                      match e
                      case TimerStop(i) => i == id || StoppedLast(s.log, id)
                      case TimerStart(u) => u.id != id && StoppedLast(s.log, id)
                      case _ => StoppedLast(s.log, id)
    {
      StoppedSnoc(s.log, Dispatched(e), id);
    }
    match e {
      case TimerStart(t) => FindSpec(s.list, t.id);
      case TimerStop(id) =>
        FindSpec(s.list, id);
        forall t | t in s.list && t.id == id ensures Find(s.list, id) == Some(t) {
          FindUnique(s.list, t);
        }
      case TimerCallback(id) => FindSpec(s.list, id);
      case _ =>
    }
  }

  // ---------- Every run ----------

  ghost predicate Good(s: Sys) {
    && Sound(s) && SilentOk(s)
    && (forall id :: Conserved(s, id))
    && (forall t :: OnceOk(s, t))
  }

  lemma {:induction false} StepKeepsGood(s: Sys, a: Action)
    requires Good(s) && Enabled(s, a)
    ensures Good(Next(s, a))
  {
    hide Sound, SilentOk, Conserved, OnceOk;
    StepKeepsSound(s, a);
    StepKeepsSilent(s, a);
    forall id ensures Conserved(Next(s, a), id) {
      StepKeepsConserved(s, a, id);
    }
    forall t ensures OnceOk(Next(s, a), t) {
      StepKeepsOnce(s, a, t);
    }
  }

  lemma InitIsGood()
    ensures Good(INIT)
  {
  }

  lemma GoodOnce(s: Sys, t: Timer)
    requires Good(s)
    ensures OnceOk(s, t)
  {
  }

  lemma {:induction false} RunKeepsGood(s: Sys, run: seq<Action>)
    requires Good(s) && Legal(s, run)
    ensures Good(After(s, run))
    decreases |run|
  {
    if run != [] {
      StepKeepsGood(s, run[0]);
      RunKeepsGood(Next(s, run[0]), run[1..]);
    }
  }

  /** What holds at the end of every run from the empty worker: whenever the dispatcher is between events, the
      listed ids are nonzero and distinct and every listed timer is running with exactly one thread; a one-shot
      timer's callback has been invoked at most once; for each id no more callbacks were invoked than callback
      events were posted; and no callback ran for an id whose last dispatched start or stop was a stop. */
  lemma EveryRunIsSafe(run: seq<Action>)
    requires Legal(INIT, run)
    ensures var s := After(INIT, run);
            && ListOk(s.list)
            && (s.todo == Done ==> forall t | t in s.list :: t in s.timers && T.Live(s.timers[t]))
            && (forall t: Timer | !t.cyclic :: Times(s.log, t) <= 1)
            && (forall id :: Invocations(s.log, id) <= CallbacksPosted(s.log, id))
            && Silent(s.log)
  {
    RunKeepsGood(INIT, run);
    var s := After(INIT, run);
    forall id ensures Invocations(s.log, id) <= CallbacksPosted(s.log, id) {
      assert Conserved(s, id);
    }
    forall t: Timer | !t.cyclic ensures Times(s.log, t) <= 1 {
      assert OnceOk(s, t);
    }
  }

  /** `Silent` read forwards: between a dispatched stop and a later invocation of the same id lies a dispatched
      start of that id. */
  lemma {:induction false} StopSilencesUntilStart(log: seq<Obs>, i: nat, j: nat, id: nat)
    requires Silent(log) && i < j < |log|
    requires log[i] == Dispatched(TimerStop(id)) && log[j].Invoked? && log[j].t.id == id
    ensures exists k | i < k < j :: log[k].Dispatched? && log[k].e.TimerStart? && log[k].e.t.id == id
  {
    if !(exists k | i < k < j :: log[k].Dispatched? && log[k].e.TimerStart? && log[k].e.t.id == id) {
      StillStopped(log[..j], i, id);
      assert false;
    }
  }

  lemma {:induction false} StillStopped(log: seq<Obs>, i: nat, id: nat)
    requires i < |log| && log[i] == Dispatched(TimerStop(id))
    requires forall k | i < k < |log| :: !(log[k].Dispatched? && log[k].e.TimerStart? && log[k].e.t.id == id)
    ensures StoppedLast(log, id)
    decreases |log|
  {
    if i < |log| - 1 {
      StillStopped(log[..|log| - 1], i, id);
    }
  }

  /** The calls on timers that a log records, in order. */
  function CallsOf(log: seq<Obs>): seq<Workers.Call> {
    if log == [] then []
    else CallsOf(log[..|log| - 1]) +
         match Last(log)
         case Invoked(t) => [Invoke(t)]
         case Ended(t) => [Stop(t)]
         case Begun(t) => [Start(t)]
         case _ => []
  }

  /** However the timer threads and posts interleave with the program of an event, the list it leaves and the calls
      it makes on timers are those the dispatcher makes on its own. */
  lemma {:induction false} ProgramRunsAsDispatched(s: Sys, run: seq<Action>)
    requires Legal(s, run) && Dispatch !in run
    ensures var r := After(s, run);
            && Finish(r.list, r.todo).0 == Finish(s.list, s.todo).0
            && CallsOf(r.log) + Finish(r.list, r.todo).1 == CallsOf(s.log) + Finish(s.list, s.todo).1
            && (r.todo == Done ==>
                  r.list == Finish(s.list, s.todo).0 && CallsOf(r.log) == CallsOf(s.log) + Finish(s.list, s.todo).1)
    decreases |run|
  {
    hide Finish, CallsOf;
    var r := After(s, run);
    if r.todo == Done {
      FinishDone(r.list);
      assert CallsOf(r.log) + [] == CallsOf(r.log);
    }
    if run != [] {
      assert run[0] in run && forall a | a in run[1..] :: a in run;
      StepAsDispatched(s, run[0]);
      ProgramRunsAsDispatched(Next(s, run[0]), run[1..]);
    }
  }

  lemma FinishDone(list: seq<Timer>)
    ensures Finish(list, Done) == (list, [])
  {
  }

  lemma {:induction false} StepAsDispatched(s: Sys, a: Action)
    requires Enabled(s, a) && !a.Dispatch?
    ensures var r := Next(s, a);
            && Finish(r.list, r.todo).0 == Finish(s.list, s.todo).0
            && CallsOf(r.log) + Finish(r.list, r.todo).1 == CallsOf(s.log) + Finish(s.list, s.todo).1
  {
    hide Finish, CallsOf;
    var r := Next(s, a);
    if a.Exec? {
      var later := Finish(r.list, r.todo).1;
      FinishStep(s.list, s.todo);
      CallsNoted(s.log, s.todo);
      assert CallsOf(s.log) + CallStep(s.todo) + later == CallsOf(s.log) + (CallStep(s.todo) + later);
    } else if r.log != s.log {
      CallsPosted(s.log, Last(r.log));
    }
  }

  lemma CallsNoted(log: seq<Obs>, todo: Todo)
    ensures CallsOf(Noted(log, todo)) == CallsOf(log) + CallStep(todo)
  {
    if Noted(log, todo) != log {
      Snoc(log, Last(Noted(log, todo)));
    }
  }

  lemma CallsPosted(log: seq<Obs>, o: Obs)
    requires o.Posted?
    ensures CallsOf(log + [o]) == CallsOf(log)
  {
    Snoc(log, o);
  }

  // ---------- Timers go on ----------

  lemma {:induction false} LogGrows(s: Sys, run: seq<Action>)
    requires Legal(s, run)
    ensures s.log <= After(s, run).log
    decreases |run|
  {
    if run != [] {
      LogGrows(Next(s, run[0]), run[1..]);
    }
  }

  lemma {:induction false} RunKeepsSound(s: Sys, run: seq<Action>)
    requires Sound(s) && Legal(s, run)
    ensures Sound(After(s, run))
    decreases |run|
  {
    hide Sound;
    if run != [] {
      StepKeepsSound(s, run[0]);
      RunKeepsSound(Next(s, run[0]), run[1..]);
    }
  }

  /** The current program is going to drop the timer with this id. */
  predicate Dropping(todo: Todo, id: nat) {
    match todo
    case Halt(u, ThenDrop(_)) => u.id == id
    case Await(u, ThenDrop(_)) => u.id == id
    case Drop(u, _) => u.id == id
    case _ => false
  }

  lemma {:induction false} StepKeepsListed(s: Sys, a: Action, t: Timer)
    requires ListOk(s.list) && TodoOk(s) && Enabled(s, a) && t.cyclic && t in s.list && !Dropping(s.todo, t.id)
    requires a.Dispatch? ==>
               s.queue[0] != TimerStop(t.id) && !(s.queue[0].TimerStart? && s.queue[0].t.id == t.id)
    ensures t in Next(s, a).list && !Dropping(Next(s, a).todo, t.id)
  {
    match a {
      case Dispatch => FindSpec(s.list, if s.queue[0].TimerStart? then s.queue[0].t.id
          else if s.queue[0].TimerStop? || s.queue[0].TimerCallback? then s.queue[0].id else 0);
      case Exec =>
        FindUnique(s.list, t);
        match s.todo {
          case Call(u) => FindUnique(s.list, u);
          case Drop(u, _) => WithoutSpec(s.list, u.id);
          case Enlist(u) => WithSpec(s.list, u);
          case _ =>
        }
      case _ =>
    }
  }

  lemma {:induction false} ListedStays(s: Sys, a: Action, t: Timer)
    requires Sound(s) && Enabled(s, a) && t.cyclic && t in s.list && !Dropping(s.todo, t.id)
    requires a.Dispatch? ==>
               s.queue[0] != TimerStop(t.id) && !(s.queue[0].TimerStart? && s.queue[0].t.id == t.id)
    ensures t in Next(s, a).list && !Dropping(Next(s, a).todo, t.id)
  {
    hide TimersOk, QueueOk, Dropping, Next;
    StepKeepsListed(s, a, t);
  }

  lemma ListedRuns(s: Sys, t: Timer)
    requires Sound(s) && s.todo == Done && t in s.list
    ensures t in s.timers && s.timers[t].running && s.timers[t].thread != T.NoThread
  {
  }

  lemma LogStep(s: Sys, a: Action)
    requires Enabled(s, a)
    ensures s.log <= Next(s, a).log && (a.Dispatch? ==> Next(s, a).log == s.log + [Dispatched(s.queue[0])])
  {
  }

  /** A listed cyclic timer stays listed, and running whenever the dispatcher is between events, until a start or a
      stop of its id is dispatched; no callback ends it. */
  lemma {:induction false} CyclicGoesOn(s: Sys, run: seq<Action>, t: Timer)
    requires Sound(s) && Legal(s, run) && t.cyclic && t in s.list && !Dropping(s.todo, t.id)
    requires forall k | |s.log| <= k < |After(s, run).log| && After(s, run).log[k].Dispatched? ::
               var e := After(s, run).log[k].e; e != TimerStop(t.id) && !(e.TimerStart? && e.t.id == t.id)
    ensures var r := After(s, run);
            t in r.list && (r.todo == Done ==> t in r.timers && r.timers[t].running && r.timers[t].thread != T.NoThread)
    decreases |run|
  {
    hide Sound, Dropping;
    if run == [] {
      if s.todo == Done {
        ListedRuns(s, t);
      }
    } else {
      var next := Next(s, run[0]);
      assert After(s, run) == After(next, run[1..]);
      LogGrows(next, run[1..]);
      LogStep(s, run[0]);
      if run[0].Dispatch? {
        assert After(s, run).log[|s.log|] == next.log[|s.log|] == Dispatched(s.queue[0]);
      }
      ListedStays(s, run[0], t);
      StepKeepsSound(s, run[0]);
      CyclicGoesOn(next, run[1..], t);
    }
  }

  /** Where the program of a callback for the cyclic timer `t` can be, and how often `t` has been started by then. */
  predicate Restarting(s: Sys, t: Timer, starts: nat) {
    && t in s.timers && s.timers[t].starts == starts + (if s.todo == Done then 1 else 0)
    && (s.todo == Done || s.todo == Todo.Call(t) || s.todo == Halt(t, ThenBegin) || s.todo == Await(t, ThenBegin)
        || s.todo == Begin(t))
  }

  lemma {:induction false} StepKeepsRestarting(s: Sys, a: Action, t: Timer, starts: nat)
    requires TimersOk(s) && TodoOk(s) && Enabled(s, a) && !a.Dispatch? && t.cyclic && Restarting(s, t, starts)
    requires a.Post? && a.e.TimerStart? ==> a.e.t != t
    ensures Restarting(Next(s, a), t, starts)
  {
    if a.Thread? {
      T.ThreadKeepsPhase(s.timers[a.t], a.a);
    }
  }

  lemma {:induction false} RunKeepsRestarting(s: Sys, run: seq<Action>, t: Timer, starts: nat)
    requires Sound(s) && Legal(s, run) && Dispatch !in run && t.cyclic && Restarting(s, t, starts)
    ensures Restarting(After(s, run), t, starts)
    decreases |run|
  {
    if run != [] {
      assert run[0] in run && forall a | a in run[1..] :: a in run;
      StepKeepsRestarting(s, run[0], t, starts);
      StepKeepsSound(s, run[0]);
      RunKeepsRestarting(Next(s, run[0]), run[1..], t, starts);
    }
  }

  /** However posts and timer threads interleave with it: once a callback for a listed cyclic timer has been handled,
      the list is what it was, the timer has been called back, stopped and started, and it is running again with one
      more start. */
  lemma {:induction false} CallbackRestartsCyclic(s: Sys, run: seq<Action>, t: Timer)
    requires Sound(s) && s.todo == Done && s.queue != [] && s.queue[0] == TimerCallback(t.id)
    requires t in s.list && t.cyclic && Legal(Next(s, Dispatch), run) && Dispatch !in run
    ensures var r := After(Next(s, Dispatch), run);
            r.todo == Done ==>
              && r.list == s.list && CallsOf(r.log) == CallsOf(s.log) + [Invoke(t), Stop(t), Start(t)]
              && t in r.timers && t in s.timers && r.timers[t].starts == s.timers[t].starts + 1
              && r.timers[t].running && r.timers[t].thread != T.NoThread
  {
    hide CallsOf, Finish, Find;
    var d := Next(s, Dispatch);
    FindUnique(s.list, t);
    StepKeepsSound(s, Dispatch);
    RunKeepsRestarting(d, run, t, s.timers[t].starts);
    RunKeepsSound(d, run);
    Snoc(s.log, Dispatched(s.queue[0]));
    NotACall(s.log, s.queue[0]);
    ProgramRunsAsDispatched(d, run);
    var i :| 0 <= i < |s.list| && s.list[i] == t;
    CallbackProgram(s.list, i, t.id);
  }

  lemma NotACall(log: seq<Obs>, e: Event)
    ensures CallsOf(log + [Dispatched(e)]) == CallsOf(log)
  {
    Snoc(log, Dispatched(e));
  }

  /** Once a start has been handled the timer is listed and running, unless its id is zero, which is never listed. */
  lemma {:induction false} StartLists(s: Sys, run: seq<Action>, t: Timer)
    requires Sound(s) && s.todo == Done && s.queue != [] && s.queue[0] == TimerStart(t)
    requires Legal(Next(s, Dispatch), run) && Dispatch !in run && t.id != 0
    ensures var r := After(Next(s, Dispatch), run);
            r.todo == Done ==> t in r.list && t in r.timers && r.timers[t].running && r.timers[t].thread != T.NoThread
  {
    hide Finish, CallsOf;
    var d := Next(s, Dispatch);
    StepKeepsSound(s, Dispatch);
    RunKeepsSound(d, run);
    ProgramRunsAsDispatched(d, run);
    FindSpec(s.list, t.id);
    if Find(s.list, t.id).Some? {
      var i :| 0 <= i < |s.list| && s.list[i] == Find(s.list, t.id).value;
      StartProgram(s.list, i, t);
    } else {
      AbsentProgram(s.list, t);
    }
  }

  /** Steps a timer thread has left. */
  function Left(thread: T.Thread): nat {
    match thread
    case Sleeping => 2
    case Expired => 1
    case _ => 0
  }

  /** Every program can be brought to its end: the dispatcher never waits for a thread that cannot finish. */
  lemma {:induction false} ProgramCanFinish(s: Sys) returns (run: seq<Action>)
    requires Sound(s)
    ensures Legal(s, run) && Dispatch !in run && After(s, run).todo == Done
    decreases Rank(s.todo), if s.todo.Await? && s.todo.t in s.timers then Left(s.timers[s.todo.t].thread) else 0
  {
    run := [];
    if s.todo != Done {
      var a := Exec;
      if !Enabled(s, Exec) {
        var timer := s.timers[s.todo.t];
        var b := if timer.thread == T.Expired then T.Post else if timer.held then T.Timeout else T.Acquire;
        a := Thread(s.todo.t, b);
      }
      StepKeepsSound(s, a);
      var rest := ProgramCanFinish(Next(s, a));
      run := [a] + rest;
      assert run[1..] == rest;
    }
  }

  // ---------- What is not promised ----------

  lemma {:induction false} Extend(s: Sys, run: seq<Action>, a: Action)
    requires Legal(s, run) && Enabled(After(s, run), a)
    ensures Legal(s, run + [a]) && After(s, run + [a]) == Next(After(s, run), a)
    decreases |run|
  {
    if run == [] {
      assert [] + [a] == [a] && [a][1..] == [];
    } else {
      assert (run + [a])[1..] == run[1..] + [a];
      Extend(Next(s, run[0]), run[1..], a);
    }
  }

  lemma Do(run: seq<Action>, s: Sys, a: Action) returns (run': seq<Action>, s': Sys)
    requires Legal(INIT, run) && After(INIT, run) == s && Enabled(s, a)
    ensures Legal(INIT, run') && After(INIT, run') == s' == Next(s, a)
  {
    Extend(INIT, run, a);
    run', s' := run + [a], Next(s, a);
  }

  /** A callback already queued by a timer may be credited to the timer that replaces it: the replacement's
      callback is invoked although its own interval has not passed. */
  lemma {:induction false} StaleCallbackReachesReplacement(id: nat) returns (run: seq<Action>, t: Timer)
    requires id != 0
    ensures Legal(INIT, run)
    ensures var s := After(INIT, run);
            Times(s.log, t) == 1 && t in s.timers && s.timers[t].thread == T.Sleeping && s.timers[t].posts == 0
  {
    hide Times, Legal, After;
    t := Timer(id, false, 1);
    var s;
    run, s := ReplacementStarts(Timer(id, false, 0), t);
    run, s := Do(run, s, Dispatch);
    NotInvokedYet(run, t);
    TimesSnoc(s.log, t);
    run, s := Do(run, s, Exec);
  }

  lemma {:induction false} NotInvokedYet(run: seq<Action>, t: Timer)
    requires Legal(INIT, run)
    requires var s := After(INIT, run); !t.cyclic && t in s.list && !Past(s.todo, t)
    ensures Times(After(INIT, run).log, t) == 0
  {
    hide Good, Times, Legal, After;
    InitIsGood();
    RunKeepsGood(INIT, run);
    GoodOnce(After(INIT, run), t);
  }

  lemma TimesSnoc(log: seq<Obs>, t: Timer)
    ensures Times(log + [Invoked(t)], t) == Times(log, t) + 1
  {
    Snoc(log, Invoked(t));
  }

  /** The second half: the first timer is stopped and replaced while its callback is still queued. */
  lemma ReplacementStarts(first: Timer, t: Timer) returns (run: seq<Action>, s: Sys)
    requires first.id == t.id != 0 && first != t
    ensures Legal(INIT, run) && After(INIT, run) == s
    ensures s.queue == [TimerCallback(t.id)] && s.list == [t] && s.todo == Done
    ensures t in s.timers && s.timers[t] == T.Next(T.IDLE, T.Start)
  {
    run, s := FirstTimerPosts(first, t);
    run, s := Do(run, s, Dispatch);
    run, s := Do(run, s, Exec);
    run, s := Do(run, s, Exec);
    run, s := Do(run, s, Exec);
    assert s.list == [] && s.todo == Enlist(t);
    run, s := Do(run, s, Exec);
    run, s := Do(run, s, Exec);
  }

  /** The first half: a timer is started, its replacement is queued, and then its interval passes. */
  lemma FirstTimerPosts(first: Timer, t: Timer) returns (run: seq<Action>, s: Sys)
    requires first.id == t.id != 0 && first != t
    ensures Legal(INIT, run) && After(INIT, run) == s
    ensures s.queue == [TimerStart(t), TimerCallback(t.id)] && s.list == [first] && s.todo == Done
    ensures t in s.timers && s.timers[t] == T.IDLE
    ensures first in s.timers && s.timers[first].running && s.timers[first].thread == T.Finished(true)
  {
    s, run := INIT, [];
    run, s := Do(run, s, Post(TimerStart(first)));
    run, s := Do(run, s, Dispatch);
    run, s := Do(run, s, Exec);
    run, s := Do(run, s, Exec);
    assert s.list == [first] && s.todo == Done && s.timers == map[first := T.Next(T.IDLE, T.Start)];
    run, s := Do(run, s, Post(TimerStart(t)));
    run, s := Do(run, s, Thread(first, T.Timeout));
    run, s := Do(run, s, Thread(first, T.Post));
  }
}
