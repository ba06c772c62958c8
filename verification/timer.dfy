/**
 A timer and its thread.  The worker starts and stops the timer; the thread waits in `try_lock_for` on the
 abort mutex and posts one callback if the interval passes before it gets the mutex.  The mutex is modelled
 as a flag, the thread as a program counter, and every action of either side as one step.
 */
module Timers {

  /** Sleeping: inside `try_lock_for`.  Expired: timed out, about to post.  Finished: `Run` has returned. */
  datatype Thread = NoThread | Sleeping | Expired | Finished(posted: bool)

  /** `starts`, `posts` and `aborts` count threads created, callbacks posted, and runs that ended without one. */
  datatype TimerState = TimerState(running: bool, held: bool, thread: Thread, starts: nat, posts: nat, aborts: nat)

  const IDLE := TimerState(false, false, NoThread, 0, 0, 0)

  datatype Action = Start | Unlock | Join | Timeout | Post | Acquire

  predicate Active(s: TimerState) { s.thread == Sleeping || s.thread == Expired }

  /** The worker calls `Start`, or `Stop`, which unlocks and then joins; the thread times out only while the
      mutex is held and acquires it only while it is free. */
  predicate Enabled(s: TimerState, a: Action) {
    match a
    case Start => true
    case Unlock => true
    case Join => !Active(s)
    case Timeout => s.thread == Sleeping && s.held
    case Post => s.thread == Expired
    case Acquire => s.thread == Sleeping && !s.held
  }

  function Next(s: TimerState, a: Action): TimerState {
    match a
    case Start =>
      if s.running then s
      else if s.thread == NoThread then s.(running := true, held := true, thread := Sleeping, starts := s.starts + 1)
      else s.(running := true)
    case Unlock => s.(running := false, held := false)
    case Join => s.(thread := NoThread)
    case Timeout => s.(thread := Expired)
    case Post => s.(thread := Finished(true), posts := s.posts + 1)
    case Acquire => s.(held := true, thread := Finished(false), aborts := s.aborts + 1)
  }

  /** Every run is accounted for, and from `Start` to `Stop` the flag is held and the run is not aborted. */
  predicate Consistent(s: TimerState) {
    && s.posts + s.aborts + (if Active(s) then 1 else 0) == s.starts
    && (s.thread != NoThread ==> s.starts > 0)
    && (s.running ==> s.held && s.thread != NoThread && s.thread != Finished(false))
  }

  /** Started and not stopped since: one thread, which can only time out or has posted. */
  predicate Live(s: TimerState) { s.running && Consistent(s) }

  /** Stop has begun: the thread may still be on its way out. */
  predicate Stopping(s: TimerState) { !s.running && Consistent(s) && s.starts > 0 }

  /** Stop has returned. */
  predicate Stopped(s: TimerState) { Stopping(s) && s.thread == NoThread }

  /** The worker alternates: `Start` only when stopped or new, `Unlock` only when live, `Join` after it. */
  predicate Disciplined(s: TimerState, a: Action) {
    match a
    case Start => s == IDLE || Stopped(s)
    case Unlock => Live(s)
    case Join => Stopping(s)
    case _ => true
  }

  predicate Legal(s: TimerState, run: seq<Action>)
    decreases |run|
  {
    run != [] ==> Enabled(s, run[0]) && Disciplined(s, run[0]) && Legal(Next(s, run[0]), run[1..])
  }

  function After(s: TimerState, run: seq<Action>): TimerState
    decreases |run|
  {
    if run == [] then s else After(Next(s, run[0]), run[1..])
  }

  lemma StepKeepsConsistent(s: TimerState, a: Action)
    requires (s == IDLE || Live(s) || Stopping(s)) && Enabled(s, a) && Disciplined(s, a)
    ensures Live(Next(s, a)) || Stopping(Next(s, a))
    ensures a == Start ==> Live(Next(s, a))
    ensures a == Unlock ==> Stopping(Next(s, a))
    ensures a == Join ==> Stopped(Next(s, a))
    ensures Live(s) && a.Acquire? ==> false
  {
  }

  /** What the thread does on its own neither starts nor stops the timer. */
  lemma ThreadKeepsPhase(s: TimerState, a: Action)
    requires (s == IDLE || Live(s) || Stopping(s)) && ByThread(a) && Enabled(s, a)
    ensures s != IDLE && Next(s, a) != IDLE && !Stopped(s) && Active(s)
    ensures (Live(s) ==> Live(Next(s, a))) && (Stopping(s) ==> Stopping(Next(s, a)))
    ensures Next(s, a).starts == s.starts && Next(s, a).thread != NoThread
  {
  }

  /** Over any number of rounds: whenever the worker has started the timer the flag is held and the run has not
      been aborted; each run posts at most once; and when a stop has returned every run so far has either
      posted exactly once or been aborted, so none can post later. */
  lemma {:induction false} EveryRunPostsOnceOrAborts(s: TimerState, run: seq<Action>)
    requires (s == IDLE || Live(s) || Stopping(s)) && Legal(s, run)
    ensures var r := After(s, run);
            && (r == IDLE || Live(r) || Stopping(r))
            && (r.running ==> r.held && (r.thread == Sleeping || r.thread == Expired || r.thread == Finished(true)))
            && r.posts <= r.starts
            && (Stopped(r) ==>
                  r.posts + r.aborts == r.starts && forall b | ByThread(b) :: !Enabled(r, b))
    decreases |run|
  {
    if run != [] {
      StepKeepsConsistent(s, run[0]);
      EveryRunPostsOnceOrAborts(Next(s, run[0]), run[1..]);
    }
  }

  predicate ByThread(a: Action) { a == Timeout || a == Post || a == Acquire }

  predicate ThreadOnly(run: seq<Action>) { forall a | a in run :: ByThread(a) }

  /** Stop either aborts the run or finds it expired or posted: the thread steps between the unlock and the join
      post exactly if the interval had already passed. */
  lemma {:induction false} StopAbortsOrFindsPosted(s: TimerState, run: seq<Action>)
    requires Live(s) && ThreadOnly(run) && Legal(Next(s, Unlock), run) && Enabled(After(Next(s, Unlock), run), Join)
    ensures var r := Next(After(Next(s, Unlock), run), Join);
            && Stopped(r) && r.starts == s.starts
            && r.posts == s.posts + (if s.thread == Expired then 1 else 0)
            && r.aborts == s.aborts + (if s.thread == Sleeping then 1 else 0)
  {
    JoinOutcome(Next(s, Unlock), run);
  }

  lemma {:induction false} JoinOutcome(s: TimerState, run: seq<Action>)
    requires Stopping(s) && (s.thread == Sleeping ==> !s.held) && ThreadOnly(run) && Legal(s, run)
    requires !Active(After(s, run))
    ensures var r := After(s, run);
            && Stopping(r) && r.starts == s.starts
            && r.posts == s.posts + (if s.thread == Expired then 1 else 0)
            && r.aborts == s.aborts + (if s.thread == Sleeping then 1 else 0)
    decreases |run|
  {
    if run != [] {
      assert run[0] in run;
      StepKeepsConsistent(s, run[0]);
      assert forall a | a in run[1..] :: a in run;
      JoinOutcome(Next(s, run[0]), run[1..]);
    }
  }

  /** While a timer is live its thread posts exactly once: left alone it times out and posts, then nothing. */
  lemma LiveThreadPostsExactlyOnce(s: TimerState, a: Action)
    requires Live(s) && ByThread(a) && Enabled(s, a)
    ensures Live(Next(s, a))
    ensures a == (if s.thread == Sleeping then Timeout else Post)
    ensures s.thread == Sleeping ==> Next(s, a).thread == Expired && Enabled(Next(s, a), Post)
    ensures s.thread == Expired ==> Next(s, a).posts == s.posts + 1
                                    && forall b | ByThread(b) :: !Enabled(Next(s, a), b)
  {
  }

  // ---------- The timer object ----------

  class Timer {
    var isRunning: bool
    var abortHeld: bool
    var thread: Thread
    ghost var starts: nat
    ghost var posts: nat
    ghost var aborts: nat

    ghost function State(): TimerState
      reads this
    {
      TimerState(isRunning, abortHeld, thread, starts, posts, aborts)
    }

    constructor ()
      ensures State() == IDLE
    {
      isRunning, abortHeld, thread, starts, posts, aborts := false, false, NoThread, 0, 0, 0;
    }

    method Start() returns (started: bool)
      modifies this
      ensures State() == Next(old(State()), Action.Start) && started == !old(isRunning)
      ensures State() == if old(isRunning) then old(State())
                         else if old(thread) == NoThread then
                           TimerState(true, true, Sleeping, old(starts) + 1, old(posts), old(aborts))
                         else TimerState(true, old(abortHeld), old(thread), old(starts), old(posts), old(aborts))
    {
      if isRunning {
        return false;
      }
      isRunning := true;
      if thread == NoThread {
        abortHeld := true;  // try_lock: held afterwards whether or not it succeeded
        thread := Sleeping;
        starts := starts + 1;
      }
      started := true;
    }

    /** One step of the timer thread: `Run` up to its next interaction.  Tells whether it posted a callback. */
    method RunStep(timedOut: bool) returns (posted: bool)
      requires thread == Sleeping ==> timedOut == abortHeld
      modifies this
      ensures State() == match old(thread)
                         case Sleeping => Next(old(State()), if timedOut then Timeout else Acquire)
                         case Expired => Next(old(State()), Post)
                         case _ => old(State())
      ensures posted == (old(thread) == Expired)
      ensures isRunning == old(isRunning) && starts == old(starts)
      ensures posts == old(posts) + (if old(thread) == Expired then 1 else 0)
      ensures match old(thread)
              case Sleeping =>
                if timedOut then thread == Expired && abortHeld && aborts == old(aborts)
                else thread == Finished(false) && abortHeld && aborts == old(aborts) + 1
              case Expired => thread == Finished(true) && abortHeld == old(abortHeld) && aborts == old(aborts)
              case _ => thread == old(thread) && abortHeld == old(abortHeld) && aborts == old(aborts)
    {
      posted := false;
      if thread == Sleeping {
        if timedOut {
          thread := Expired;
        } else {
          abortHeld := true;
          thread := Finished(false);
          aborts := aborts + 1;
        }
      } else if thread == Expired {
        posted := true;
        posts := posts + 1;
        thread := Finished(true);
      }
    }

    /** Unlock, then join: the thread takes whatever steps it has left.  Tells whether it posted meanwhile. */
    method Stop() returns (posted: bool)
      requires Live(State())
      modifies this
      ensures Stopped(State()) && starts == old(starts)
      ensures posted == (old(thread) == Expired) && posts == old(posts) + (if posted then 1 else 0)
      ensures aborts == old(aborts) + (if old(thread) == Sleeping then 1 else 0)
    {
      isRunning := false;
      abortHeld := false;
      posted := false;
      while thread == Sleeping || thread == Expired
        invariant Stopping(State()) && starts == old(starts)
        invariant thread == Sleeping ==> !abortHeld && !posted && posts == old(posts) && aborts == old(aborts)
        invariant thread == Sleeping <==> aborts == old(aborts) && old(thread) == Sleeping
        invariant aborts == old(aborts) + (if old(thread) == Sleeping && thread != Sleeping then 1 else 0)
        invariant thread == Expired ==> old(thread) == Expired && !posted
        invariant thread == Finished(true) || thread == Finished(false) ==> posted == (old(thread) == Expired)
        invariant posts == old(posts) + (if posted then 1 else 0)
        decreases if thread == Sleeping || thread == Expired then 1 else 0
      {
        posted := RunStep(false);
      }
      thread := NoThread;
    }
  }
}
