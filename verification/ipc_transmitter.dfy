/**
 The transmitter: messages are queued for a socket, taken first-in first-out, and written to a snapshot of the
 socket's clients; a client whose write fails is removed.
 */
module Transmitter {
  import opened Common
  import opened Ipc

  type Message = seq<int>

  /** One write: to whom, what, and whether it succeeded. */
  datatype Write = Write(fd: int, message: Message, ok: bool)

  class IpcTransmitter {
    const sockets: seq<IpcSocket>
    var pending: seq<(IpcSocket, Message)>
    const accepts: nat -> bool  // outcome of the n-th write
    ghost var writes: seq<Write>
    var count: nat

    constructor (sockets: seq<IpcSocket>, accepts: nat -> bool)
      ensures this.sockets == sockets && this.accepts == accepts && pending == [] && writes == [] && count == 0
    {
      this.sockets, this.accepts, pending, writes, count := sockets, accepts, [], [], 0;
    }

    /** Queues for the first socket with this URI; an unknown URI drops the message. */
    method SendData(uri: string, message: Message)
      modifies `pending
      ensures (forall i | 0 <= i < |sockets| :: sockets[i].uri != uri) ==> pending == old(pending)
      ensures forall i | 0 <= i < |sockets| && sockets[i].uri == uri
              && (forall k | 0 <= k < i :: sockets[k].uri != uri) ::
                pending == old(pending) + [(sockets[i], message)]
    {
      for i := 0 to |sockets|
        invariant pending == old(pending) && forall k | 0 <= k < i :: sockets[k].uri != uri
      {
        if sockets[i].uri == uri {
          pending := pending + [(sockets[i], message)];
          return;
        }
      }
    }

    method GetHead() returns (head: Option<(IpcSocket, Message)>)
      modifies `pending
      ensures old(pending) == [] ==> head.None? && pending == []
      ensures old(pending) != [] ==> head == Some(old(pending)[0]) && pending == old(pending)[1..]
    {
      if pending == [] {
        return None;
      }
      head := Some(pending[0]);
      pending := pending[1..];
    }

    /** Writes to every client of the snapshot, in list order, and removes those whose write failed. */
    method InnerSendToClients(socket: IpcSocket, message: Message)
      modifies socket, `writes, `count
      ensures count == old(count) + |old(socket.clients)|
      ensures writes == old(writes) + Writes(old(socket.clients), message, accepts, old(count))
      ensures socket.clients == Survivors(old(socket.clients), old(socket.clients), accepts, old(count))
    {
      hide Writes, Survivors, Erase;
      var snapshot := socket.clients;
      assert snapshot[0..] == snapshot;
      for i := 0 to |snapshot|
        invariant count == old(count) + i
        invariant writes + Writes(snapshot[i..], message, accepts, count) ==
                  old(writes) + Writes(snapshot, message, accepts, old(count))
        invariant Survivors(socket.clients, snapshot[i..], accepts, count) ==
                  Survivors(snapshot, snapshot, accepts, old(count))
      {
        var ok := accepts(count);
        ghost var w := Write(snapshot[i], message, ok);
        SendStep(socket.clients, snapshot, i, message, accepts, count);
        assert writes + ([w] + Writes(snapshot[i + 1..], message, accepts, count + 1)) ==
               writes + [w] + Writes(snapshot[i + 1..], message, accepts, count + 1);
        writes := writes + [w];
        if !ok {
          socket.RemoveClientDescriptor(snapshot[i]);
        }
        count := count + 1;
      }
      SendDone(socket.clients, snapshot, message, accepts, count);
    }

    /** Drains the queue: message by message in order, each written to the clients its socket has by then. */
    method SendToClients()
      requires forall p | p in pending :: p.0 in sockets
      modifies this, sockets
      ensures pending == []
      ensures writes == old(writes) + Drain(old(ClientMap(sockets)), old(pending), accepts, old(count)).0
      ensures ClientMap(sockets) == Drain(old(ClientMap(sockets)), old(pending), accepts, old(count)).1
    {
      hide Drain, Writes, Survivors;
      ghost var all := Drain(ClientMap(sockets), pending, accepts, count);
      ghost var done: seq<Write> := [];
      DrainNothing(ClientMap(sockets), accepts, count);
      while true
        invariant forall p | p in pending :: p.0 in sockets
        invariant writes == old(writes) + done
        invariant DrainsTo(done, Drain(ClientMap(sockets), pending, accepts, count), all)
        decreases |pending|
      {
        ghost var before, queued, n := ClientMap(sockets), pending, count;
        var head := GetHead();
        if head.None? {
          DrainNothing(before, accepts, n);
          break;
        }
        var (socket, message) := head.value;
        assert before[socket] == socket.clients;
        DrainStep(before, queued, accepts, n, done, all);
        InnerSendToClients(socket, message);
        assert ClientMap(sockets) == before[socket := socket.clients];
        done := done + Writes(before[socket], message, accepts, n);
      }
    }
  }

  /** The current client list of every socket. */
  ghost function ClientMap(sockets: seq<IpcSocket>): map<IpcSocket, seq<int>>
    reads sockets
  {
    map s | s in sockets :: s.clients
  }

  /** The writes of draining a queue, and the client lists afterwards. */
  ghost function Drain(clients: map<IpcSocket, seq<int>>, pending: seq<(IpcSocket, Message)>, accepts: nat -> bool,
      n: nat)
    : (seq<Write>, map<IpcSocket, seq<int>>)
    decreases |pending|
  {
    if pending == [] then ([], clients)
    else
      var (socket, message) := pending[0];
      var list := At(clients, socket, []);
      var rest := Drain(clients[socket := Survivors(list, list, accepts, n)], pending[1..], accepts, n + |list|);
      (Writes(list, message, accepts, n) + rest.0, rest.1)
  }

  /** `done`, followed by what is still to drain, is everything. */
  ghost predicate DrainsTo(done: seq<Write>, rest: (seq<Write>, map<IpcSocket, seq<int>>),
      all: (seq<Write>, map<IpcSocket, seq<int>>)) {
    done + rest.0 == all.0 && rest.1 == all.1
  }

  lemma DrainNothing(clients: map<IpcSocket, seq<int>>, accepts: nat -> bool, n: nat)
    ensures Drain(clients, [], accepts, n) == ([], clients)
  {
  }

  lemma DrainStep(clients: map<IpcSocket, seq<int>>, pending: seq<(IpcSocket, Message)>, accepts: nat -> bool, n: nat,
                  done: seq<Write>, all: (seq<Write>, map<IpcSocket, seq<int>>))
    requires pending != [] && pending[0].0 in clients && DrainsTo(done, Drain(clients, pending, accepts, n), all)
    ensures var (socket, message) := pending[0];
            var list := clients[socket];
            DrainsTo(done + Writes(list, message, accepts, n),
                     Drain(clients[socket := Survivors(list, list, accepts, n)], pending[1..], accepts, n + |list|),
                         all)
  {
  }

  function Writes(clients: seq<int>, message: Message, accepts: nat -> bool, n: nat): seq<Write>
    decreases |clients|
  {
    if clients == [] then []
    else [Write(clients[0], message, accepts(n))] + Writes(clients[1..], message, accepts, n + 1)
  }

  function Survivors(list: seq<int>, snapshot: seq<int>, accepts: nat -> bool, n: nat): seq<int>
    decreases |snapshot|
  {
    if snapshot == [] then list
    else Survivors(if accepts(n) then list else Erase(list, snapshot[0]), snapshot[1..], accepts, n + 1)
  }

  lemma SendStep(list: seq<int>, snapshot: seq<int>, i: nat, message: Message, accepts: nat -> bool, n: nat)
    requires i < |snapshot|
    ensures Writes(snapshot[i..], message, accepts, n) ==
            [Write(snapshot[i], message, accepts(n))] + Writes(snapshot[i + 1..], message, accepts, n + 1)
    ensures Survivors(list, snapshot[i..], accepts, n) ==
            Survivors(if accepts(n) then list else Erase(list, snapshot[i]), snapshot[i + 1..], accepts, n + 1)
  {
    assert snapshot[i..][1..] == snapshot[i + 1..];
  }

  lemma SendDone(list: seq<int>, snapshot: seq<int>, message: Message, accepts: nat -> bool, n: nat)
    ensures Writes(snapshot[|snapshot|..], message, accepts, n) == []
            && Survivors(list, snapshot[|snapshot|..], accepts, n) == list
  {
  }

  /** One write per client, in list order. */
  lemma {:induction false} WritesAre(clients: seq<int>, message: Message, accepts: nat -> bool, n: nat)
    ensures |Writes(clients, message, accepts, n)| == |clients|
    ensures forall i | 0 <= i < |clients| ::
              Writes(clients, message, accepts, n)[i] == Write(clients[i], message, accepts(n + i))
    decreases |clients|
  {
    if clients != [] {
      WritesAre(clients[1..], message, accepts, n + 1);
    }
  }

  /** A write to this client failed. */
  predicate Failed(snapshot: seq<int>, accepts: nat -> bool, n: nat, fd: int) {
    exists i | 0 <= i < |snapshot| :: snapshot[i] == fd && !accepts(n + i)
  }

  /** Exactly the clients to whom a write failed leave the list. */
  lemma {:induction false} SurvivorsAre(list: seq<int>, snapshot: seq<int>, accepts: nat -> bool, n: nat, fd: int)
    requires NoDup(list)
    ensures NoDup(Survivors(list, snapshot, accepts, n))
    ensures fd in Survivors(list, snapshot, accepts, n) <==> fd in list && !Failed(snapshot, accepts, n, fd)
    decreases |snapshot|
  {
    if snapshot != [] {
      EraseSpec(list, snapshot[0]);
      SurvivorsAre(if accepts(n) then list else Erase(list, snapshot[0]), snapshot[1..], accepts, n + 1, fd);
      FailedCons(snapshot, accepts, n, fd);
    }
  }

  lemma FailedCons(snapshot: seq<int>, accepts: nat -> bool, n: nat, fd: int)
    requires snapshot != []
    ensures Failed(snapshot, accepts, n, fd) <==>
            (snapshot[0] == fd && !accepts(n)) || Failed(snapshot[1..], accepts, n + 1, fd)
  {
    if i :| 0 <= i < |snapshot| && snapshot[i] == fd && !accepts(n + i) && i > 0 {
      assert snapshot[1..][i - 1] == fd && !accepts(n + 1 + (i - 1));
    }
    if Failed(snapshot[1..], accepts, n + 1, fd) {
      var i :| 0 <= i < |snapshot[1..]| && snapshot[1..][i] == fd && !accepts(n + 1 + i);
      assert snapshot[i + 1] == fd && !accepts(n + (i + 1));
    }
  }

  // ---------- Interleaved runs ----------

  /** Where the drain loop is with the message it took last, for socket `s`. */
  datatype Stage = Idle | Taken(s: nat) | Sending(s: nat, left: seq<int>)

  /** What one client of one socket got: indices into the socket's messages; since when it is a member. */
  datatype Client = Client(got: seq<nat>, base: nat, since: nat, leftAt: nat)

  datatype Sys = Sys(
    members: map<nat, seq<int>>,
    queue: seq<(nat, Message)>,
    accepted: map<nat, seq<Message>>,
    taken: map<nat, seq<Message>>,
    stage: Stage,
    client: map<(nat, int), Client>)

  datatype Action = Send(s: nat, m: Message) | Join(s: nat, fd: int) | Leave(s: nat, fd: int) | Take | Copy |
      Try(ok: bool) | Finish

  function At<K, V>(m: map<K, V>, k: K, v: V): V { if k in m then m[k] else v }

  function Members(y: Sys, s: nat): seq<int> { At(y.members, s, []) }
  function Accepted(y: Sys, s: nat): seq<Message> { At(y.accepted, s, []) }
  function TakenOf(y: Sys, s: nat): seq<Message> { At(y.taken, s, []) }
  function ClientOf(y: Sys, s: nat, fd: int): Client { At(y.client, (s, fd), Client([], 0, 0, 0)) }

  const INIT := Sys(map[], [], map[], map[], Idle, map[])

  predicate Enabled(y: Sys, a: Action) {
    match a
    case Send(_, _) => true
    case Join(_, _) => true
    case Leave(_, _) => true
    case Take => y.stage == Idle && y.queue != []
    case Copy => y.stage.Taken?
    case Try(_) => y.stage.Sending? && y.stage.left != []
    case Finish => y.stage.Sending? && y.stage.left == []
  }

  /** The message in hand is still to be offered to this client. */
  predicate Offered(y: Sys, s: nat, fd: int) {
    match y.stage
    case Idle => false
    case Taken(k) => k == s
    case Sending(k, left) => k == s && fd in left
  }

  /** Index of the next message of the socket that a member will be offered. */
  function Due(y: Sys, s: nat, fd: int): int { |TakenOf(y, s)| - if Offered(y, s, fd) then 1 else 0 }

  function Add(y: Sys, s: nat, fd: int): Sys {
    if fd in Members(y, s) then y
    else
      var c := ClientOf(y, s, fd);
      var due := if Due(y, s, fd) < 0 then 0 else Due(y, s, fd);
      y.(members := y.members[s := Members(y, s) + [fd]],
         client := y.client[(s, fd) := c.(base := |c.got|, since := due)])
  }

  function Remove(y: Sys, s: nat, fd: int): Sys {
    if fd !in Members(y, s) then y
    else y.(members := y.members[s := Erase(Members(y, s), fd)],
            client := y.client[(s, fd) := ClientOf(y, s, fd).(leftAt := |TakenOf(y, s)|)])
  }

  function Next(y: Sys, a: Action): Sys
    requires Enabled(y, a)
  {
    match a
    case Send(s, m) => y.(queue := y.queue + [(s, m)], accepted := y.accepted[s := Accepted(y, s) + [m]])
    case Join(s, fd) => Add(y, s, fd)
    case Leave(s, fd) => Remove(y, s, fd)
    case Take =>
      var (s, m) := y.queue[0];
      y.(queue := y.queue[1..], taken := y.taken[s := TakenOf(y, s) + [m]], stage := Taken(s))
    case Copy => y.(stage := Sending(y.stage.s, Members(y, y.stage.s)))
    case Try(ok) =>
      var s, fd := y.stage.s, y.stage.left[0];
      var y' := y.(stage := Sending(s, y.stage.left[1..]));
      if !ok then Remove(y', s, fd)
      else
        var c := ClientOf(y, s, fd);
        var index := if |TakenOf(y, s)| == 0 then 0 else |TakenOf(y, s)| - 1;
        y'.(client := y.client[(s, fd) := c.(got := c.got + [index])])
    case Finish => y.(stage := Idle)
  }

  predicate Legal(y: Sys, run: seq<Action>)
    decreases |run|
  {
    run != [] ==> Enabled(y, run[0]) && Legal(Next(y, run[0]), run[1..])
  }

  function After(y: Sys, run: seq<Action>): Sys
    requires Legal(y, run)
    decreases |run|
  {
    if run == [] then y else After(Next(y, run[0]), run[1..])
  }

  /** Messages still queued for one socket, in order. */
  function QueuedFor(queue: seq<(nat, Message)>, s: nat): seq<Message> {
    if queue == [] then []
    else (if queue[0].0 == s then [queue[0].1] else []) + QueuedFor(queue[1..], s)
  }

  lemma {:induction false} QueuedForSnoc(queue: seq<(nat, Message)>, k: nat, m: Message, s: nat)
    ensures QueuedFor(queue + [(k, m)], s) == QueuedFor(queue, s) + if k == s then [m] else []
  {
    if queue == [] {
      assert queue + [(k, m)] == [(k, m)] && [(k, m)][1..] == [];
    } else {
      assert (queue + [(k, m)])[1..] == queue[1..] + [(k, m)];
      QueuedForSnoc(queue[1..], k, m, s);
    }
  }

  /** Nothing accepted is lost, duplicated or reordered on its way out of the queue. */
  ghost predicate Fifo(y: Sys, s: nat) { Accepted(y, s) == TakenOf(y, s) + QueuedFor(y.queue, s) }

  ghost predicate StageOk(y: Sys) {
    && (y.stage.Taken? ==> TakenOf(y, y.stage.s) != [])
    && (y.stage.Sending? ==> TakenOf(y, y.stage.s) != [] && NoDup(y.stage.left))
  }

  /** What a client has got so far: distinct messages of its socket in order; while it is a member, every message
      from the one due when it joined, without a gap; once it has left, none taken from the queue after that. */
  ghost predicate Delivered(y: Sys, s: nat, fd: int) {
    var c := ClientOf(y, s, fd);
    && NoDup(Members(y, s))
    && (forall i, j | 0 <= i < j < |c.got| :: c.got[i] < c.got[j])
    && (forall i | 0 <= i < |c.got| :: c.got[i] < Due(y, s, fd))
    && c.base <= |c.got|
    && (fd in Members(y, s) ==>
          && |c.got| - c.base == Due(y, s, fd) - c.since
          && forall i | c.base <= i < |c.got| :: c.got[i] == c.since + (i - c.base))
    && (fd !in Members(y, s) ==>
          && (forall i | 0 <= i < |c.got| :: c.got[i] < c.leftAt)
          && (y.stage.Sending? && y.stage.s == s && fd in y.stage.left ==> c.leftAt == |TakenOf(y, s)|))
  }

  ghost predicate Good(y: Sys) {
    StageOk(y) && (forall s :: Fifo(y, s)) && (forall s, fd :: Delivered(y, s, fd))
  }

  lemma StepKeepsFifo(y: Sys, a: Action, s: nat)
    requires Fifo(y, s) && Enabled(y, a)
    ensures Fifo(Next(y, a), s)
  {
    match a {
      case Send(k, m) => QueuedForSnoc(y.queue, k, m, s);
      case _ =>
    }
  }

  lemma StepKeepsStage(y: Sys, a: Action)
    requires StageOk(y) && Enabled(y, a) && forall s :: NoDup(Members(y, s))
    ensures StageOk(Next(y, a))
  {
    if a.Try? {
      var left := y.stage.left;
      assert forall i | 0 <= i < |left[1..]| :: left[1..][i] == left[i + 1];
    }
  }

  lemma StepKeepsDelivered(y: Sys, a: Action, s: nat, fd: int)
    requires StageOk(y) && Delivered(y, s, fd) && Enabled(y, a)
    ensures Delivered(Next(y, a), s, fd)
  {
    match a {
      case Send(_, _) =>
      case Join(k, g) => JoinKeepsDelivered(y, k, g, s, fd);
      case Leave(k, g) => RemoveKeepsDelivered(y, k, g, s, fd);
      case Take =>
      case Copy =>
      case Try(ok) => TryKeepsDelivered(y, ok, s, fd);
      case Finish =>
    }
  }

  lemma JoinKeepsDelivered(y: Sys, k: nat, g: int, s: nat, fd: int)
    requires StageOk(y) && Delivered(y, s, fd)
    ensures Delivered(Add(y, k, g), s, fd)
  {
    var y' := Add(y, k, g);
    assert Due(y', s, fd) == Due(y, s, fd);
    if k != s || g != fd {
      assert ClientOf(y', s, fd) == ClientOf(y, s, fd);
    }
  }

  lemma RemoveKeepsDelivered(y: Sys, k: nat, g: int, s: nat, fd: int)
    requires StageOk(y) && Delivered(y, s, fd)
    ensures Delivered(Remove(y, k, g), s, fd)
  {
    if k == s {
      EraseSpec(Members(y, s), g);
    }
  }

  /** The client the message is offered to. */
  lemma TryKeepsThis(y: Sys, ok: bool)
    requires Enabled(y, Try(ok)) && StageOk(y) && Delivered(y, y.stage.s, y.stage.left[0])
    ensures Delivered(Next(y, Try(ok)), y.stage.s, y.stage.left[0])
  {
    var k, g, left := y.stage.s, y.stage.left[0], y.stage.left;
    assert forall i | 0 <= i < |left[1..]| :: left[1..][i] == left[i + 1];
    assert g !in left[1..];
    EraseSpec(Members(y, k), g);
  }

  /** Everyone else. */
  lemma TryKeepsOthers(y: Sys, ok: bool, s: nat, fd: int)
    requires Enabled(y, Try(ok)) && StageOk(y) && Delivered(y, s, fd)
    requires s != y.stage.s || fd != y.stage.left[0]
    ensures Delivered(Next(y, Try(ok)), s, fd)
  {
    var left, y' := y.stage.left, Next(y, Try(ok));
    assert left == [left[0]] + left[1..];
    EraseSpec(Members(y, s), left[0]);
    assert Offered(y', s, fd) == Offered(y, s, fd) && ClientOf(y', s, fd) == ClientOf(y, s, fd);
    assert fd in Members(y', s) <==> fd in Members(y, s);
  }

  lemma TryKeepsDelivered(y: Sys, ok: bool, s: nat, fd: int)
    requires StageOk(y) && Delivered(y, s, fd) && Enabled(y, Try(ok))
    ensures Delivered(Next(y, Try(ok)), s, fd)
  {
    if s == y.stage.s && fd == y.stage.left[0] {
      TryKeepsThis(y, ok);
    } else {
      TryKeepsOthers(y, ok, s, fd);
    }
  }

  lemma MembersDistinct(y: Sys, s: nat)
    requires forall fd :: Delivered(y, s, fd)
    ensures NoDup(Members(y, s))
  {
    assert Delivered(y, s, 0);
  }

  lemma {:induction false} RunKeepsGood(y: Sys, run: seq<Action>)
    requires Good(y) && Legal(y, run)
    ensures Good(After(y, run))
    decreases |run|
  {
    hide Delivered, Fifo, StageOk;
    if run != [] {
      var y' := Next(y, run[0]);
      forall s ensures NoDup(Members(y, s)) {
        MembersDistinct(y, s);
      }
      StepKeepsStage(y, run[0]);
      forall s ensures Fifo(y', s) {
        StepKeepsFifo(y, run[0], s);
      }
      forall s, fd ensures Delivered(y', s, fd) {
        StepKeepsDelivered(y, run[0], s, fd);
      }
      RunKeepsGood(y', run[1..]);
    }
  }

  /** The messages a client got, in the order written. */
  function Received(y: Sys, s: nat, fd: int): seq<Message>
    requires forall i | 0 <= i < |ClientOf(y, s, fd).got| :: ClientOf(y, s, fd).got[i] < |TakenOf(y, s)|
  {
    var got, taken := ClientOf(y, s, fd).got, TakenOf(y, s);
    seq(|got|, i requires 0 <= i < |got| => taken[got[i]])
  }

  /** In every interleaving of sends, joins, leaves and write failures: the messages taken for a socket are a
      prefix of those accepted for it, in order; a client gets messages of its socket in that order and none
      twice; and while it is a member it has got exactly the unbroken run from the one due when it joined up to
      the one it will be offered next. */
  lemma EveryRunDelivers(run: seq<Action>, s: nat, fd: int)
    requires Legal(INIT, run)
    ensures var y := After(INIT, run);
            var c := ClientOf(y, s, fd);
            && TakenOf(y, s) <= Accepted(y, s) && (y.queue == [] ==> TakenOf(y, s) == Accepted(y, s))
            && (forall i, j | 0 <= i < j < |c.got| :: c.got[i] < c.got[j] < |TakenOf(y, s)|)
            && (forall i | 0 <= i < |c.got| :: c.got[i] < |TakenOf(y, s)|)
            && (fd in Members(y, s) ==>
                  && c.base <= |c.got| && c.since <= Due(y, s, fd) <= |TakenOf(y, s)|
                  && Received(y, s, fd)[c.base..] == TakenOf(y, s)[c.since..Due(y, s, fd)]
                  && (y.stage == Idle ==> Received(y, s, fd)[c.base..] == TakenOf(y, s)[c.since..]))
            && (fd !in Members(y, s) ==> forall i | 0 <= i < |c.got| :: c.got[i] < c.leftAt)
  {
    RunKeepsGood(INIT, run);
    var y := After(INIT, run);
    assert Fifo(y, s) && Delivered(y, s, fd);
  }

  /** The client is a member throughout the run. */
  predicate StaysMember(y: Sys, run: seq<Action>, s: nat, fd: int)
    requires Legal(y, run)
    decreases |run|
  {
    fd in Members(y, s) && (run != [] ==> StaysMember(Next(y, run[0]), run[1..], s, fd))
  }

  lemma StepKeepsSince(y: Sys, a: Action, s: nat, fd: int)
    requires Enabled(y, a) && fd in Members(y, s) && fd in Members(Next(y, a), s)
    requires NoDup(Members(y, s))
    ensures ClientOf(Next(y, a), s, fd).base == ClientOf(y, s, fd).base
            && ClientOf(Next(y, a), s, fd).since == ClientOf(y, s, fd).since
  {
    if a.Leave? && a.s == s {
      EraseSpec(Members(y, s), a.fd);
    }
  }

  lemma {:induction false} RunKeepsSince(y: Sys, run: seq<Action>, s: nat, fd: int)
    requires Good(y) && Legal(y, run) && StaysMember(y, run, s, fd)
    ensures fd in Members(After(y, run), s)
    ensures ClientOf(After(y, run), s, fd).base == ClientOf(y, s, fd).base
            && ClientOf(After(y, run), s, fd).since == ClientOf(y, s, fd).since
    decreases |run|
  {
    hide Good, Next, Members, ClientOf;
    if run != [] {
      StepKeepsSince(y, run[0], s, fd) by {
        GoodDistinct(y, s);
        assert StaysMember(Next(y, run[0]), run[1..], s, fd);
      }
      assert [run[0]][1..] == [] && Legal(y, [run[0]]) && After(y, [run[0]]) == Next(y, run[0]);
      RunKeepsGood(y, [run[0]]);
      RunKeepsSince(Next(y, run[0]), run[1..], s, fd);
    }
  }

  lemma GoodDistinct(y: Sys, s: nat)
    requires Good(y)
    ensures NoDup(Members(y, s))
  {
    MembersDistinct(y, s);
  }

  /** A client that joins between two messages and stays gets, after what it had from before, every message taken for
      its socket from then on, in order. */
  lemma {:induction false} JoinedGetsEverything(run: seq<Action>, more: seq<Action>, s: nat, fd: int)
    requires Legal(INIT, run)
    requires var y := After(INIT, run);
             && y.stage == Idle && fd !in Members(y, s)
             && Legal(Next(y, Join(s, fd)), more) && StaysMember(Next(y, Join(s, fd)), more, s, fd)
             && After(Next(y, Join(s, fd)), more).stage == Idle
    ensures var y := After(INIT, run);
            var z := After(Next(y, Join(s, fd)), more);
            && (forall i | 0 <= i < |ClientOf(z, s, fd).got| :: ClientOf(z, s, fd).got[i] < |TakenOf(z, s)|)
            && |ClientOf(y, s, fd).got| <= |Received(z, s, fd)| && |TakenOf(y, s)| <= |TakenOf(z, s)|
            && Received(z, s, fd)[|ClientOf(y, s, fd).got|..] == TakenOf(z, s)[|TakenOf(y, s)|..]
  {
    hide Good, Delivered, After, Legal, StaysMember;
    var y := After(INIT, run);
    var j := Next(y, Join(s, fd));
    JoinedAt(y, s, fd);
    InitGood();
    RunKeepsGood(INIT, run);
    JoinKeepsGood(y, s, fd);
    RunKeepsSince(j, more, s, fd);
    RunKeepsGood(j, more);
    MemberHas(After(j, more), s, fd);
  }

  lemma InitGood()
    ensures Good(INIT)
  {
  }

  lemma JoinedAt(y: Sys, s: nat, fd: int)
    requires y.stage == Idle && fd !in Members(y, s)
    ensures var c := ClientOf(Next(y, Join(s, fd)), s, fd);
            c.base == |ClientOf(y, s, fd).got| && c.since == |TakenOf(y, s)|
  {
  }

  lemma {:induction false} JoinKeepsGood(y: Sys, s: nat, fd: int)
    requires Good(y)
    ensures Good(Next(y, Join(s, fd)))
  {
    hide Good, Next;
    var run := [Join(s, fd)];
    assert run[1..] == [] && Legal(y, run) && After(y, run) == Next(y, Join(s, fd));
    RunKeepsGood(y, run);
  }

  lemma MemberHas(z: Sys, s: nat, fd: int)
    requires Good(z) && z.stage == Idle && fd in Members(z, s)
    ensures var c := ClientOf(z, s, fd);
            && (forall i | 0 <= i < |c.got| :: c.got[i] < |TakenOf(z, s)|)
            && c.base <= |c.got| && c.since <= |TakenOf(z, s)|
            && Received(z, s, fd)[c.base..] == TakenOf(z, s)[c.since..]
  {
    assert Delivered(z, s, fd);
  }

  // ---------- Everything can be sent ----------

  /** Steps left until nothing is queued and nothing in hand, when every write succeeds. */
  function Left(y: Sys): nat {
    match y.stage
    case Idle => 0
    case Sending(_, left) => 1 + |left|
    case Taken(s) => 2 + |Members(y, s)|
  }

  /** Whatever the state, the drain loop can take every message accepted so far. */
  lemma {:induction false} QueueCanDrain(y: Sys, s: nat) returns (run: seq<Action>)
    requires Good(y)
    ensures Legal(y, run) && forall a | a in run :: a.Take? || a.Copy? || a.Try? || a.Finish?
    ensures After(y, run).queue == [] && After(y, run).stage == Idle && TakenOf(After(y, run), s) == Accepted(y, s)
    decreases |y.queue|, Left(y)
  {
    run := [];
    if y.stage == Idle && y.queue == [] {
      assert Fifo(y, s);
    } else {
      var a := if y.stage == Idle then Take else if y.stage.Taken? then Copy
               else if y.stage.left != [] then Try(true) else Finish;
      assert [a][1..] == [] && Legal(y, [a]) && After(y, [a]) == Next(y, a);
      RunKeepsGood(y, [a]);
      var rest := QueueCanDrain(Next(y, a), s);
      run := [a] + rest;
      assert run[1..] == rest;
    }
  }

  // ---------- A send without interference ----------

  /** The writes of one send as steps: the `i`-th succeeds as `accepts` says of the `n + i`-th write. */
  function Tries(left: seq<int>, accepts: nat -> bool, n: nat): seq<Action>
    decreases |left|
  {
    if left == [] then [Finish] else [Try(accepts(n))] + Tries(left[1..], accepts, n + 1)
  }

  /** What these steps leave behind for one client is what `Writes` and `Survivors` say of the program's own loop. */
  ghost predicate Sent(y: Sys, z: Sys, s: nat, left: seq<int>, accepts: nat -> bool, n: nat, m: Message, fd: int)
    requires TakenOf(y, s) != []
  {
    && z.stage == Idle && z.queue == y.queue && z.taken == y.taken && z.accepted == y.accepted
    && Members(z, s) == Survivors(Members(y, s), left, accepts, n)
    && ClientOf(z, s, fd).got == ClientOf(y, s, fd).got +
         if Write(fd, m, true) in Writes(left, m, accepts, n) then [|TakenOf(y, s)| - 1 as nat] else []
  }

  /** When nothing else happens between `Copy` and `Finish`, the transition system does what `InnerSendToClients`
      is proved to do: the survivors stay members, and the message in hand reaches exactly the clients with a
      successful write. */
  lemma {:induction false} UndisturbedSend(y: Sys, accepts: nat -> bool, n: nat, fd: int)
    requires y.stage.Taken? && TakenOf(y, y.stage.s) != [] && NoDup(Members(y, y.stage.s))
    ensures var s := y.stage.s;
            var list, m := Members(y, s), Last(TakenOf(y, s));
            var run := [Copy] + Tries(list, accepts, n);
            Legal(y, run) && Sent(y, After(y, run), s, list, accepts, n, m, fd)
  {
    hide Writes, Survivors, Tries;
    var s := y.stage.s;
    var list := Members(y, s);
    var y', tries := Next(y, Copy), Tries(list, accepts, n);
    TriesSend(y', accepts, n, Last(TakenOf(y, s)), fd);
    assert ([Copy] + tries)[1..] == tries && After(y, [Copy] + tries) == After(y', tries);
  }

  function Last<T>(s: seq<T>): T
    requires s != []
  {
    s[|s| - 1]
  }

  lemma {:induction false} TriesSend(y: Sys, accepts: nat -> bool, n: nat, m: Message, fd: int)
    requires y.stage.Sending? && TakenOf(y, y.stage.s) != [] && NoDup(y.stage.left)
    ensures var run := Tries(y.stage.left, accepts, n);
            Legal(y, run) && Sent(y, After(y, run), y.stage.s, y.stage.left, accepts, n, m, fd)
    decreases |y.stage.left|
  {
    hide Next, Writes, Survivors, Members, ClientOf, TakenOf, Erase, Sent;
    var s, left := y.stage.s, y.stage.left;
    if left == [] {
      FinishSends(y, accepts, n, m, fd);
    } else {
      var y', tries := Next(y, Try(accepts(n))), Tries(left[1..], accepts, n + 1);
      TryEffect(y, accepts(n), fd);
      OneTry(Members(y, s), left, m, accepts, n, fd);
      TriesSend(y', accepts, n + 1, m, fd);
      assert ([Try(accepts(n))] + tries)[1..] == tries;
      TryThenSent(y, After(y', tries), accepts, n, m, fd);
    }
  }

  lemma FinishSends(y: Sys, accepts: nat -> bool, n: nat, m: Message, fd: int)
    requires y.stage.Sending? && y.stage.left == [] && TakenOf(y, y.stage.s) != []
    ensures Legal(y, [Finish]) && Sent(y, After(y, [Finish]), y.stage.s, [], accepts, n, m, fd)
  {
    assert [Finish][1..] == [] && After(y, [Finish]) == Next(y, Finish);
  }

  lemma TryThenSent(y: Sys, z: Sys, accepts: nat -> bool, n: nat, m: Message, fd: int)
    requires Enabled(y, Try(accepts(n))) && TakenOf(y, y.stage.s) != [] && NoDup(y.stage.left)
    requires TakenOf(Next(y, Try(accepts(n))), y.stage.s) != []
    requires Sent(Next(y, Try(accepts(n))), z, y.stage.s, y.stage.left[1..], accepts, n + 1, m, fd)
    ensures Sent(y, z, y.stage.s, y.stage.left, accepts, n, m, fd)
  {
    TryEffect(y, accepts(n), fd);
    OneTry(Members(y, y.stage.s), y.stage.left, m, accepts, n, fd);
  }

  lemma TryEffect(y: Sys, ok: bool, fd: int)
    requires Enabled(y, Try(ok)) && TakenOf(y, y.stage.s) != []
    ensures var s, left, z := y.stage.s, y.stage.left, Next(y, Try(ok));
            && z.stage == Sending(s, left[1..]) && z.queue == y.queue && z.taken == y.taken && z.accepted == y.accepted
            && TakenOf(z, s) == TakenOf(y, s)
            && Members(z, s) == (if ok then Members(y, s) else Erase(Members(y, s), left[0]))
            && ClientOf(z, s, fd).got ==
               ClientOf(y, s, fd).got + if ok && fd == left[0] then [|TakenOf(y, s)| - 1 as nat] else []
  {
    if y.stage.left[0] !in Members(y, y.stage.s) {
      EraseNone(Members(y, y.stage.s), y.stage.left[0]);
    }
  }

  lemma OneTry(list: seq<int>, left: seq<int>, m: Message, accepts: nat -> bool, n: nat, fd: int)
    requires left != [] && NoDup(left)
    ensures NoDup(left[1..])
    ensures Survivors(list, left, accepts, n) ==
            Survivors(if accepts(n) then list else Erase(list, left[0]), left[1..], accepts, n + 1)
    ensures var later := Write(fd, m, true) in Writes(left[1..], m, accepts, n + 1);
            && (Write(fd, m, true) in Writes(left, m, accepts, n) <==> (accepts(n) && fd == left[0]) || later)
            && (fd == left[0] ==> !later)
  {
    var tail := left[1..];
    assert forall i | 0 <= i < |tail| :: tail[i] == left[i + 1];
    WritesAre(tail, m, accepts, n + 1);
  }
}
