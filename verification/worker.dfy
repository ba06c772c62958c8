/**
 The worker's timer bookkeeping, as the dispatcher thread executes it: a queue of events, a list of started
 timers, and for each event a short program of calls on timer objects.
 */
module Workers {
  import opened Common

  /** A timer object: what it was configured with, and which object it is. */
  datatype Timer = Timer(id: nat, cyclic: bool, serial: nat)

  datatype Event = TimerStart(t: Timer) | TimerStop(id: nat) | TimerCallback(id: nat) | Message | Unknown | Null

  /** What remains to be done for the event being dispatched; the first step is the outermost constructor. */
  datatype Todo =
    | Done
    | Call(t: Timer)                         // InvokeCallback
    | Halt(t: Timer, after: Then)           // Stop: unlock
    | Await(t: Timer, after: Then)          // Stop: join
    | Drop(t: Timer, next: Option<Timer>)    // RemoveTimer
    | Enlist(t: Timer)                       // AddTimer
    | Begin(t: Timer)                        // Start

  datatype Then = ThenDrop(next: Option<Timer>) | ThenBegin

  datatype Call = Invoke(t: Timer) | Stop(t: Timer) | Start(t: Timer)

  // ---------- The timer list ----------

  /** The first listed timer with this id. */
  function Find(list: seq<Timer>, id: nat): Option<Timer> {
    if list == [] then None else if list[0].id == id then Some(list[0]) else Find(list[1..], id)
  }

  function Without(list: seq<Timer>, id: nat): seq<Timer> {
    if list == [] then [] else if list[0].id == id then list[1..] else [list[0]] + Without(list[1..], id)
  }

  function With(list: seq<Timer>, t: Timer): seq<Timer> {
    if t.id != 0 && Find(list, t.id).None? then list + [t] else list
  }

  /** Ids are nonzero and pairwise distinct. */
  predicate ListOk(list: seq<Timer>) {
    && (forall i | 0 <= i < |list| :: list[i].id != 0)
    && (forall i, j | 0 <= i < j < |list| :: list[i].id != list[j].id)
  }

  lemma {:induction false} FindSpec(list: seq<Timer>, id: nat)
    ensures match Find(list, id)
            case None => forall t | t in list :: t.id != id
            case Some(t) => t in list && t.id == id
                            && exists i | 0 <= i < |list| :: list[i] == t && forall j | 0 <= j < i :: list[j].id != id
  {
    if list != [] {
      FindSpec(list[1..], id);
      if list[0].id == id {
        assert list[0] == Find(list, id).value;
      } else if Find(list, id).Some? {
        var i :| 0 <= i < |list[1..]| && list[1..][i] == Find(list, id).value
                 && forall j | 0 <= j < i :: list[1..][j].id != id;
        assert list[i + 1] == list[1..][i] && forall j | 1 <= j < i + 1 :: list[j] == list[1..][j - 1];
      }
    }
  }

  /** Removal takes out the first timer with the id. */
  lemma {:induction false} WithoutAt(list: seq<Timer>, i: nat, id: nat)
    requires i < |list| && list[i].id == id && forall j | 0 <= j < i :: list[j].id != id
    ensures Find(list, id) == Some(list[i]) && Without(list, id) == list[..i] + list[i + 1..]
    decreases i
  {
    if i > 0 {
      var tail := list[1..];
      assert tail[i - 1] == list[i] && forall j | 0 <= j < i - 1 :: tail[j] == list[j + 1];
      WithoutAt(tail, i - 1, id);
      assert list[..i] == [list[0]] + tail[..i - 1] && list[i + 1..] == tail[i..];
      assert [list[0]] + (tail[..i - 1] + tail[i..]) == list[..i] + list[i + 1..];
    }
  }

  lemma {:induction false} FindUnique(list: seq<Timer>, t: Timer)
    requires ListOk(list) && t in list
    ensures Find(list, t.id) == Some(t)
  {
    FindSpec(list, t.id);
    var u := Find(list, t.id).value;
    var i :| 0 <= i < |list| && list[i] == t;
    var j :| 0 <= j < |list| && list[j] == u;
  }

  lemma {:induction false} WithoutSpec(list: seq<Timer>, id: nat)
    requires ListOk(list)
    ensures ListOk(Without(list, id))
    ensures forall t :: t in Without(list, id) <==> t in list && t.id != id
  {
    if list != [] {
      assert forall i | 0 <= i < |list[1..]| :: list[1..][i] == list[i + 1];
      assert ListOk(list[1..]);
      WithoutSpec(list[1..], id);
      if list[0].id == id {
        assert forall t | t in list[1..] :: t.id != id;
      } else {
        var rest := Without(list[1..], id);
        assert forall i | 0 <= i < |rest| :: rest[i] in rest;
      }
    }
  }

  lemma WithSpec(list: seq<Timer>, t: Timer)
    requires ListOk(list)
    ensures ListOk(With(list, t))
    ensures t.id != 0 && Find(list, t.id).None? ==> With(list, t) == list + [t]
    ensures t.id == 0 || (exists u :: u in list && u.id == t.id) ==> With(list, t) == list
  {
    FindSpec(list, t.id);
  }

  // ---------- The program of an event ----------

  function Plan(list: seq<Timer>, e: Event): Todo {
    match e
    case TimerStart(t) => (match Find(list, t.id) case Some(u) => Halt(u, ThenDrop(Some(t))) case None => Enlist(t))
    case TimerStop(id) => (match Find(list, id) case Some(u) => Halt(u, ThenDrop(None)) case None => Done)
    case TimerCallback(id) => (match Find(list, id) case Some(u) => Todo.Call(u) case None => Done)
    case _ => Done
  }

  /** A one-shot timer is stopped and dropped after its callback; a cyclic one is stopped and started again. */
  function AfterCall(t: Timer): Then { if t.cyclic then ThenBegin else ThenDrop(None) }

  function Rank(todo: Todo): nat {
    match todo
    case Done => 0
    case Begin(_) => 1
    case Enlist(_) => 2
    case Drop(_, _) => 3
    case Await(_, _) => 4
    case Halt(_, _) => 5
    case Call(_) => 6
  }

  function Advance(todo: Todo): Todo {
    match todo
    case Done => Done
    case Call(t) => Halt(t, AfterCall(t))
    case Halt(t, a) => Await(t, a)
    case Await(t, ThenDrop(n)) => Drop(t, n)
    case Await(t, ThenBegin) => Begin(t)
    case Drop(t, Some(u)) => Enlist(u)
    case Drop(t, None) => Done
    case Enlist(t) => Begin(t)
    case Begin(t) => Done
  }

  function ListStep(list: seq<Timer>, todo: Todo): seq<Timer> {
    match todo
    case Drop(t, _) => Without(list, t.id)
    case Enlist(t) => With(list, t)
    case _ => list
  }

  function CallStep(todo: Todo): seq<Call> {
    match todo
    case Call(t) => [Invoke(t)]
    case Await(t, _) => [Stop(t)]
    case Begin(t) => [Start(t)]
    case _ => []
  }

  /** The list when the program is finished, and the calls it makes on timers, in order. */
  function Finish(list: seq<Timer>, todo: Todo): (seq<Timer>, seq<Call>)
    decreases Rank(todo)
  {
    if todo == Done then (list, [])
    else
      var (l, calls) := Finish(ListStep(list, todo), Advance(todo));
      (l, CallStep(todo) + calls)
  }

  lemma FinishEnlist(list: seq<Timer>, t: Timer)
    ensures Finish(list, Begin(t)) == (list, [Start(t)])
    ensures Finish(list, Enlist(t)) == (With(list, t), [Start(t)])
  {
    FinishStep(list, Begin(t));
    FinishStep(list, Enlist(t));
    FinishStep(With(list, t), Begin(t));
    assert [Start(t)] + [] == [Start(t)] && [] + [Start(t)] == [Start(t)];
  }

  lemma FinishHalt(list: seq<Timer>, t: Timer, next: Option<Timer>)
    ensures Finish(list, Halt(t, ThenBegin)) == (list, [Stop(t), Start(t)])
    ensures Finish(list, Halt(t, ThenDrop(next))) ==
            var l := Without(list, t.id);
            if next.None? then (l, [Stop(t)]) else (With(l, next.value), [Stop(t), Start(next.value)])
  {
    FinishEnlist(list, t);
    FinishStep(list, Halt(t, ThenBegin));
    FinishStep(list, Await(t, ThenBegin));
    FinishStep(list, Halt(t, ThenDrop(next)));
    FinishStep(list, Await(t, ThenDrop(next)));
    FinishStep(list, Drop(t, next));
    assert forall c: seq<Call> :: [] + c == c;
    assert [Stop(t)] + [Start(t)] == [Stop(t), Start(t)] && [Stop(t)] + [] == [Stop(t)];
    if next.Some? {
      FinishEnlist(Without(list, t.id), next.value);
      assert [Stop(t)] + [Start(next.value)] == [Stop(t), Start(next.value)];
    }
  }

  lemma FinishStep(list: seq<Timer>, todo: Todo)
    requires todo != Done
    ensures Finish(list, todo).0 == Finish(ListStep(list, todo), Advance(todo)).0
    ensures Finish(list, todo).1 == CallStep(todo) + Finish(ListStep(list, todo), Advance(todo)).1
  {
  }

  // What each event comes to, spelled out.

  /** A callback for a cyclic timer leaves the list as it is; the timer is called back, stopped and started again.  A
      one-shot timer is called back, stopped and dropped. */
  lemma {:induction false} CallbackProgram(list: seq<Timer>, i: nat, id: nat)
    requires i < |list| && list[i].id == id && forall j | 0 <= j < i :: list[j].id != id
    ensures var t := list[i];
            Finish(list, Plan(list, TimerCallback(id))) ==
            if t.cyclic then (list, [Invoke(t), Stop(t), Start(t)])
            else (list[..i] + list[i + 1..], [Invoke(t), Stop(t)])
  {
    hide Finish, Without, Find;
    WithoutAt(list, i, id);
    FinishHalt(list, list[i], None);
    FinishStep(list, Todo.Call(list[i]));
    var t := list[i];
    assert [Invoke(t)] + [Stop(t), Start(t)] == [Invoke(t), Stop(t), Start(t)];
    assert [Invoke(t)] + [Stop(t)] == [Invoke(t), Stop(t)];
  }

  lemma {:induction false} CallbackFinish(list: seq<Timer>, id: nat)
    ensures Finish(list, Plan(list, TimerCallback(id))) ==
            match Find(list, id)
            case Some(t) =>
              if t.cyclic then (list, [Invoke(t), Stop(t), Start(t)]) else (Without(list, id), [Invoke(t), Stop(t)])
            case None => (list, [])
    ensures Find(list, id).Some? ==> Find(list, id).value.id == id
  {
    hide Without;
    FindSpec(list, id);
    if Find(list, id).Some? {
      var i :| 0 <= i < |list| && list[i] == Find(list, id).value && forall j | 0 <= j < i :: list[j].id != id;
      WithoutAt(list, i, id);
      CallbackProgram(list, i, id);
    }
  }

  /** A stop: the timer is stopped and dropped. */
  lemma StopProgram(list: seq<Timer>, i: nat, id: nat)
    requires i < |list| && list[i].id == id && forall j | 0 <= j < i :: list[j].id != id
    ensures Finish(list, Plan(list, TimerStop(id))) == (list[..i] + list[i + 1..], [Stop(list[i])])
  {
    WithoutAt(list, i, id);
    FinishHalt(list, list[i], None);
  }

  /** A start: the holder of the id is stopped and dropped, the new timer listed last and started. */
  lemma StartProgram(list: seq<Timer>, i: nat, t: Timer)
    requires ListOk(list) && i < |list| && list[i].id == t.id
    ensures Finish(list, Plan(list, TimerStart(t))) ==
            (list[..i] + list[i + 1..] + [t], [Stop(list[i]), Start(t)])
  {
    WithoutAt(list, i, t.id);
    FinishHalt(list, list[i], Some(t));
    WithoutSpec(list, t.id);
    WithSpec(Without(list, t.id), t);
    FindSpec(Without(list, t.id), t.id);
  }

  /** Events for an id that is not listed: a start lists and starts the timer (id 0 is started only), others do
      nothing. */
  lemma AbsentProgram(list: seq<Timer>, t: Timer)
    requires forall u | u in list :: u.id != t.id
    ensures Finish(list, Plan(list, TimerCallback(t.id))) == (list, [])
    ensures Finish(list, Plan(list, TimerStop(t.id))) == (list, [])
    ensures Finish(list, Plan(list, TimerStart(t))) == (if t.id == 0 then list else list + [t], [Start(t)])
  {
    FindSpec(list, t.id);
    FinishEnlist(list, t);
  }

  // ---------- The worker object ----------

  class Worker {
    var queue: seq<Event>
    var timerList: seq<Timer>
    var threadRunning: bool
    ghost var calls: seq<Call>

    constructor ()
      ensures queue == [] && timerList == [] && !threadRunning && calls == []
    {
      queue, timerList, threadRunning, calls := [], [], false, [];
    }

    /** Without a worker thread an event is dropped. */
    method SendEvent(e: Event)
      modifies `queue
      ensures queue == if threadRunning then old(queue) + [e] else old(queue)
    {
      if threadRunning {
        queue := queue + [e];
      }
    }

    method GetTimer(id: nat) returns (timer: Option<Timer>)
      ensures timer == Find(timerList, id)
    {
      for i := 0 to |timerList|
        invariant Find(timerList, id) == Find(timerList[i..], id)
      {
        if timerList[i].id == id {
          return Some(timerList[i]);
        }
        assert timerList[i..][1..] == timerList[i + 1..];
      }
      timer := None;
    }

    method AddTimer(timer: Timer) returns (result: bool)
      modifies `timerList
      ensures timerList == With(old(timerList), timer)
      ensures result <==> timerList != old(timerList)
    {
      result := false;
      if timer.id != 0 {
        var present := GetTimer(timer.id);
        if present.None? {
          timerList := timerList + [timer];
          result := true;
        }
      }
    }

    method RemoveTimer(id: nat) returns (result: bool)
      modifies `timerList
      ensures timerList == Without(old(timerList), id)
      ensures result <==> old(Find(timerList, id)).Some?
    {
      for i := 0 to |timerList|
        invariant timerList == old(timerList)
        invariant forall j | 0 <= j < i :: timerList[j].id != id
      {
        if timerList[i].id == id {
          WithoutAt(timerList, i, id);
          timerList := timerList[..i] + timerList[i + 1..];
          return true;
        }
      }
      FindSpec(timerList, id);
      WithoutNothing(timerList, id);
      result := false;
    }

    method StopTimer(id: nat) returns (result: bool)
      modifies `timerList, `calls
      ensures result <==> old(Find(timerList, id)).Some?
      ensures timerList == Without(old(timerList), id)
      ensures calls == old(calls) + match old(Find(timerList, id)) case Some(t) => [Stop(t)] case None => []
    {
      result := false;
      var timer := GetTimer(id);
      if timer.Some? {
        calls := calls + [Stop(timer.value)];
        result := RemoveTimer(id);
      } else {
        WithoutNothing(timerList, id);
      }
    }

    method StartTimer(timer: Timer)
      modifies `timerList, `calls
      ensures var (l, c) := Finish(old(timerList), Plan(old(timerList), TimerStart(timer)));
              timerList == l && calls == old(calls) + c
      ensures match old(Find(timerList, timer.id))
              case Some(t) => timerList == With(Without(old(timerList), timer.id), timer)
                              && calls == old(calls) + [Stop(t), Start(timer)]
              case None => timerList == With(old(timerList), timer) && calls == old(calls) + [Start(timer)]
    {
      hide Finish, With, Without, Find;
      var present := GetTimer(timer.id);
      FindSpec(timerList, timer.id);
      FinishEnlist(timerList, timer);
      if present.Some? {
        FinishHalt(timerList, present.value, Some(timer));
        var _ := StopTimer(timer.id);
      }
      var _ := AddTimer(timer);
      calls := calls + [Start(timer)];
    }

    method HandleCallback(id: nat)
      modifies `timerList, `calls
      ensures var (l, c) := Finish(old(timerList), Plan(old(timerList), TimerCallback(id)));
              timerList == l && calls == old(calls) + c
      ensures match old(Find(timerList, id))
              case Some(t) =>
                if t.cyclic then timerList == old(timerList) && calls == old(calls) + [Invoke(t), Stop(t), Start(t)]
                else timerList == Without(old(timerList), id) && calls == old(calls) + [Invoke(t), Stop(t)]
              case None => timerList == old(timerList) && calls == old(calls)
    {
      hide Finish, Plan, Without;
      CallbackFinish(timerList, id);
      var timer := GetTimer(id);
      if timer.Some? {
        calls := calls + [Invoke(timer.value)];
        if !timer.value.cyclic {
          var _ := StopTimer(id);
        }
        if timer.value.cyclic {
          calls := calls + [Stop(timer.value)];
          calls := calls + [Start(timer.value)];
        }
      }
    }

    /** One turn of the dispatcher: the front event's program is run to its end. */
    method DispatchOne()
      requires queue != []
      modifies this
      ensures queue == old(queue)[1..] && threadRunning == old(threadRunning)
      ensures var (l, c) := Finish(old(timerList), Plan(old(timerList), old(queue)[0]));
              timerList == l && calls == old(calls) + c
      ensures match old(queue[0])
              case TimerStart(u) => (
                match old(Find(timerList, u.id))
                case Some(t) => timerList == With(Without(old(timerList), u.id), u)
                                && calls == old(calls) + [Stop(t), Start(u)]
                case None => timerList == With(old(timerList), u) && calls == old(calls) + [Start(u)])
              case TimerStop(id) => (
                match old(Find(timerList, id))
                case Some(t) => timerList == Without(old(timerList), id) && calls == old(calls) + [Stop(t)]
                case None => timerList == old(timerList) && calls == old(calls))
              case TimerCallback(id) => (
                match old(Find(timerList, id))
                case Some(t) =>
                  if t.cyclic then timerList == old(timerList) && calls == old(calls) + [Invoke(t), Stop(t), Start(t)]
                  else timerList == Without(old(timerList), id) && calls == old(calls) + [Invoke(t), Stop(t)]
                case None => timerList == old(timerList) && calls == old(calls))
              case _ => timerList == old(timerList) && calls == old(calls)
    {
      var event := queue[0];
      queue := queue[1..];
      match event {
        case TimerStart(t) => StartTimer(t);
        case TimerStop(id) =>
          FindSpec(timerList, id);
          if Find(timerList, id).Some? {
            FinishHalt(timerList, Find(timerList, id).value, None);
          } else {
            WithoutNothing(timerList, id);
          }
          var _ := StopTimer(id);
        case TimerCallback(id) => HandleCallback(id);
        case _ =>
      }
    }
  }

  lemma {:induction false} WithoutNothing(list: seq<Timer>, id: nat)
    requires Find(list, id).None?
    ensures Without(list, id) == list
  {
    if list != [] {
      WithoutNothing(list[1..], id);
    }
  }
}
