/**
 Sockets with their client lists, the receiver's epoll interest set kept in step with them by deltas, and the
 purging of clients that hung up.
 */
module Ipc {
  import opened Common

  // ---------- Client lists ----------

  predicate NoDup(s: seq<int>) { forall i, j | 0 <= i < j < |s| :: s[i] != s[j] }

  /** The sequence without the first occurrence of `x`. */
  function Erase(s: seq<int>, x: int): seq<int> {
    if s == [] then [] else if s[0] == x then s[1..] else [s[0]] + Erase(s[1..], x)
  }

  function Insert(s: seq<int>, x: int): seq<int> { if x in s then s else s + [x] }

  lemma {:induction false} EraseSpec(s: seq<int>, x: int)
    requires NoDup(s)
    ensures NoDup(Erase(s, x)) && forall y :: y in Erase(s, x) <==> y in s && y != x
  {
    if s != [] {
      var tail := s[1..];
      assert forall i | 0 <= i < |tail| :: tail[i] == s[i + 1];
      assert s[0] !in tail;
      assert forall y :: y in s <==> y == s[0] || y in tail;
      EraseSpec(tail, x);
      if s[0] != x {
        ConsNoDup(s[0], Erase(tail, x));
      }
    }
  }

  lemma ConsNoDup(x: int, s: seq<int>)
    requires NoDup(s) && x !in s
    ensures NoDup([x] + s) && forall y :: y in [x] + s <==> y == x || y in s
  {
  }

  /** It is the first occurrence that goes. */
  lemma {:induction false} EraseFirst(s: seq<int>, i: nat, x: int)
    requires i < |s| && s[i] == x && forall j | 0 <= j < i :: s[j] != x
    ensures Erase(s, x) == s[..i] + s[i + 1..]
    decreases i
  {
    if i > 0 {
      var tail := s[1..];
      assert tail[i - 1] == s[i] && forall j | 0 <= j < i - 1 :: tail[j] == s[j + 1];
      EraseFirst(tail, i - 1, x);
      assert s[..i] == [s[0]] + tail[..i - 1] && s[i + 1..] == tail[i..];
      assert [s[0]] + (tail[..i - 1] + tail[i..]) == s[..i] + s[i + 1..];
    }
  }

  lemma {:induction false} EraseNone(s: seq<int>, x: int)
    requires x !in s
    ensures Erase(s, x) == s
  {
    if s != [] {
      EraseNone(s[1..], x);
    }
  }

  class IpcSocket {
    const uri: string
    const name: string
    var clients: seq<int>

    constructor (uri: string, name: string)
      ensures this.uri == uri && this.name == name && clients == []
    {
      this.uri, this.name, clients := uri, name, [];
    }

    method AddClientDescriptor(fd: int)
      modifies this
      ensures clients == Insert(old(clients), fd) && (old(NoDup(clients)) ==> NoDup(clients))
      ensures fd in old(clients) ==> clients == old(clients)
      ensures fd !in old(clients) ==> clients == old(clients) + [fd]
    {
      if fd !in clients {
        clients := clients + [fd];
      }
    }

    /** Erases one occurrence; by `EraseSpec` that is every occurrence in a list without duplicates. */
    method RemoveClientDescriptor(fd: int)
      modifies this
      ensures clients == Erase(old(clients), fd)
      ensures fd !in old(clients) ==> clients == old(clients)
    {
      for i := 0 to |clients|
        invariant clients == old(clients) && forall j | 0 <= j < i :: clients[j] != fd
      {
        if clients[i] == fd {
          EraseFirst(clients, i, fd);
          clients := clients[..i] + clients[i + 1..];
          return;
        }
      }
      EraseNone(clients, fd);
    }

    method ClearClientsDescriptor()
      modifies this
      ensures clients == []
    {
      clients := [];
    }
  }

  // ---------- The epoll interest set ----------

  type Pair = (int, string)

  /** The kernel's side: adding a registered descriptor or deleting an unregistered one fails. */
  class EPoll {
    var registered: set<int>
    var failures: nat

    constructor ()
      ensures registered == {} && failures == 0
    {
      registered, failures := {}, 0;
    }

    method Add(fd: int) returns (ok: bool)
      modifies this
      ensures ok == (fd !in old(registered)) && registered == old(registered) + {fd}
      ensures failures == old(failures) + if ok then 0 else 1
    {
      ok := fd !in registered;
      if ok {
        registered := registered + {fd};
      } else {
        failures := failures + 1;
      }
    }

    method Remove(fd: int) returns (ok: bool)
      modifies this
      ensures ok == (fd in old(registered)) && registered == old(registered) - {fd}
      ensures failures == old(failures) + if ok then 0 else 1
    {
      ok := fd in registered;
      if ok {
        registered := registered - {fd};
      } else {
        failures := failures + 1;
      }
    }
  }

  function Fds(pairs: set<Pair>): set<int> { set p | p in pairs :: p.0 }

  /** Each descriptor carries one socket name. */
  predicate OneName(pairs: set<Pair>) { forall p, q | p in pairs && q in pairs && p.0 == q.0 :: p == q }

  /** What the two delta loops leave registered: removals first, then additions. */
  function AfterDelta(registered: set<int>, managed: set<Pair>, current: set<Pair>): set<int> {
    registered - Fds(managed - current) + Fds(current - managed)
  }

  /** Starting in step, one validation ends in step exactly when no descriptor loses a name while keeping
      another and gaining none. */
  lemma InStepIff(managed: set<Pair>, current: set<Pair>)
    ensures AfterDelta(Fds(managed), managed, current) == Fds(current) <==>
            Fds(managed - current) * Fds(current) <= Fds(current - managed)
  {
  }

  /** No descriptor is to be deleted twice, none added twice, and none added that stays registered. */
  predicate CallsMatch(managed: set<Pair>, current: set<Pair>) {
    && OneName(managed - current) && OneName(current - managed)
    && Fds(current - managed) !! (Fds(managed) - Fds(managed - current))
  }

  /** Snapshots that give each descriptor one name meet both conditions, even when a descriptor moves. */
  lemma OneNameStaysInStep(managed: set<Pair>, current: set<Pair>)
    requires OneName(managed) && OneName(current)
    ensures AfterDelta(Fds(managed), managed, current) == Fds(current) && CallsMatch(managed, current)
  {
  }

  lemma NoneYet()
    ensures OneName({}) && Fds({}) == {}
  {
  }

  lemma OneMore(done: set<Pair>, pair: Pair)
    requires pair !in done
    ensures OneName(done + {pair}) <==> OneName(done) && pair.0 !in Fds(done)
    ensures Fds(done + {pair}) == Fds(done) + {pair.0}
  {
    assert OneName(done + {pair}) ==> OneName(done);
    if pair.0 in Fds(done) {
      var p :| p in done && p.0 == pair.0;
      assert p in done + {pair} && pair in done + {pair};
    }
  }

  /** Two names for one descriptor can leave a current client unregistered. */
  lemma TwoNamesLoseAClient(fd: int, a: string, b: string)
    requires a != b
    ensures var managed: set<Pair> := {(fd, a), (fd, b)}; var current: set<Pair> := {(fd, a)};
            fd in Fds(current) && fd !in AfterDelta(Fds(managed), managed, current)
  {
  }

  class IpcReceiver {
    var managed: set<Pair>
    const epoll: EPoll

    ghost predicate InStep()
      reads this, epoll
    {
      epoll.registered == Fds(managed)
    }

    constructor ()
      ensures fresh(epoll) && managed == {} && InStep() && epoll.failures == 0
    {
      managed := {};
      epoll := new EPoll();
    }

    /** Every (client, socket name) pair of the current client lists. */
    method CollectDescriptors(sockets: seq<IpcSocket>) returns (result: set<Pair>)
      ensures Collected(sockets, result)
    {
      result := {};
      for i := 0 to |sockets|
        invariant forall p :: p in result <==>
                  exists k | 0 <= k < i :: p.1 == sockets[k].name && p.0 in sockets[k].clients
      {
        var name, tmp, before := sockets[i].name, sockets[i].clients, result;
        for j := 0 to |tmp|
          invariant forall p :: p in result <==> p in before || (p.1 == name && p.0 in tmp[..j])
        {
          result := result + {(tmp[j], name)};
          assert tmp[..j + 1] == tmp[..j] + [tmp[j]];
        }
        assert tmp[..|tmp|] == tmp;
      }
    }

    /** Deletes what is no longer current, adds what is new, in any order of the two sets.  The interest set is
        `AfterDelta`; starting in step, no call to the kernel fails exactly when the differences are `CallsMatch`. */
    method ValidateEPoll(current: set<Pair>)
      modifies this, epoll
      ensures managed == current
      ensures epoll.registered == AfterDelta(old(epoll.registered), old(managed), current)
      ensures old(InStep()) ==> (epoll.failures == old(epoll.failures) <==> CallsMatch(old(managed), current))
      ensures old(InStep()) && OneName(old(managed)) && OneName(current) ==>
                InStep() && epoll.failures == old(epoll.failures)
    {
      hide OneName;
      ghost var was, registered, failures := managed, epoll.registered, epoll.failures;
      ghost var step := InStep();
      var tmp := managed - current;
      ghost var done: set<Pair> := {};
      NoneYet();
      while tmp != {}
        invariant managed == was && tmp + done == was - current && tmp !! done
        invariant epoll.registered == registered - Fds(done)
        invariant epoll.failures >= failures && (step ==> (epoll.failures == failures <==> OneName(done)))
        decreases tmp
      {
        var pair: Pair :| pair in tmp;
        OneMore(done, pair);
        assert pair.0 in Fds(was);
        var _ := epoll.Remove(pair.0);
        tmp, done := tmp - {pair}, done + {pair};
      }
      assert done == was - current;
      ghost var kept, removals := epoll.registered, epoll.failures;

      tmp, done := current - managed, {};
      while tmp != {}
        invariant managed == was && tmp + done == current - was && tmp !! done
        invariant epoll.registered == kept + Fds(done)
        invariant epoll.failures >= removals && (epoll.failures == removals <==> OneName(done) && Fds(done) !! kept)
        decreases tmp
      {
        var pair: Pair :| pair in tmp;
        OneMore(done, pair);
        var _ := epoll.Add(pair.0);
        tmp, done := tmp - {pair}, done + {pair};
      }
      assert done == current - was;
      if OneName(managed) && OneName(current) {
        OneNameStaysInStep(managed, current);
      }
      managed := current;
    }

    /** The first socket that lists this client. */
    method FindParent(sockets: seq<IpcSocket>, fd: int) returns (parent: Option<IpcSocket>, ghost at: nat)
      ensures at <= |sockets| && forall k | 0 <= k < at :: fd !in sockets[k].clients
      ensures parent == (if at < |sockets| then Some(sockets[at]) else None)
      ensures at < |sockets| ==> fd in sockets[at].clients
    {
      for i := 0 to |sockets|
        invariant forall k | 0 <= k < i :: fd !in sockets[k].clients
      {
        if fd in sockets[i].clients {
          return Some(sockets[i]), i;
        }
      }
      parent, at := None, |sockets|;
    }

    /** Each mention of a hung-up client removes one listing of it; clients not mentioned stay where they are. */
    method PurgeSockets(sockets: seq<IpcSocket>, dropped: seq<int>)
      requires forall i, j | 0 <= i < j < |sockets| :: sockets[i] != sockets[j]
      modifies sockets
      ensures Lists(sockets) == Purge(old(Lists(sockets)), dropped)
    {
      for k := 0 to |dropped|
        invariant Purge(Lists(sockets), dropped[k..]) == Purge(old(Lists(sockets)), dropped)
      {
        ghost var lists := Lists(sockets);
        var parent, i := FindParent(sockets, dropped[k]);
        if parent.Some? {
          parent.value.RemoveClientDescriptor(dropped[k]);
        }
        PurgeOneAt(lists, dropped[k], i);
        assert Lists(sockets) == PurgeOne(lists, dropped[k]);
        assert dropped[k..][1..] == dropped[k + 1..];
      }
    }
  }

  // ---------- Purging, on values ----------

  ghost function Lists(sockets: seq<IpcSocket>): (lists: seq<seq<int>>)
    reads sockets
    ensures |lists| == |sockets| && forall i | 0 <= i < |sockets| :: lists[i] == sockets[i].clients
  {
    if sockets == [] then [] else [sockets[0].clients] + Lists(sockets[1..])
  }

  /** The first list that has `fd` loses it. */
  function PurgeOne(lists: seq<seq<int>>, fd: int): seq<seq<int>> {
    if lists == [] then []
    else if fd in lists[0] then [Erase(lists[0], fd)] + lists[1..]
    else [lists[0]] + PurgeOne(lists[1..], fd)
  }

  function Purge(lists: seq<seq<int>>, dropped: seq<int>): seq<seq<int>>
    decreases |dropped|
  {
    if dropped == [] then lists else Purge(PurgeOne(lists, dropped[0]), dropped[1..])
  }

  lemma {:induction false} PurgeOneAt(lists: seq<seq<int>>, fd: int, i: nat)
    requires i <= |lists| && (i < |lists| ==> fd in lists[i]) && forall k | 0 <= k < i :: fd !in lists[k]
    ensures PurgeOne(lists, fd) == if i == |lists| then lists else lists[i := Erase(lists[i], fd)]
    decreases i
  {
    if lists != [] && i > 0 {
      assert forall k | 0 <= k < i - 1 :: lists[1..][k] == lists[k + 1];
      PurgeOneAt(lists[1..], fd, i - 1);
      assert fd !in lists[0] && lists == [lists[0]] + lists[1..];
      if i < |lists| {
        assert lists[i := Erase(lists[i], fd)] == [lists[0]] + lists[1..][i - 1 := Erase(lists[i], fd)];
      }
    }
  }

  function CountIn(s: seq<int>, x: int): nat { multiset(s)[x] }

  /** In how many places a client is listed. */
  function Listings(lists: seq<seq<int>>, fd: int): nat {
    if lists == [] then 0 else CountIn(lists[0], fd) + Listings(lists[1..], fd)
  }

  lemma {:induction false} EraseCounts(s: seq<int>, x: int, y: int)
    ensures CountIn(Erase(s, x), y) == CountIn(s, y) - if x == y && x in s then 1 else 0
  {
    if s != [] {
      assert s == [s[0]] + s[1..];
      EraseCounts(s[1..], x, y);
    }
  }

  lemma {:induction false} PurgeOneCounts(lists: seq<seq<int>>, fd: int, y: int)
    ensures Listings(PurgeOne(lists, fd), y) == Listings(lists, y) - if y == fd && Listings(lists, y) > 0 then 1 else 0
  {
    if lists != [] {
      EraseCounts(lists[0], fd, y);
      PurgeOneCounts(lists[1..], fd, y);
    }
  }

  /** A purge takes away exactly one listing per mention, as long as there are any. */
  lemma {:induction false} PurgeCounts(lists: seq<seq<int>>, dropped: seq<int>, y: int)
    ensures var left := Listings(lists, y) - CountIn(dropped, y);
            Listings(Purge(lists, dropped), y) == if left < 0 then 0 else left
    decreases |dropped|
  {
    if dropped != [] {
      assert dropped == [dropped[0]] + dropped[1..];
      PurgeOneCounts(lists, dropped[0], y);
      PurgeCounts(PurgeOne(lists, dropped[0]), dropped[1..], y);
    }
  }

  lemma {:induction false} ListedIff(lists: seq<seq<int>>, fd: int)
    ensures Listings(lists, fd) > 0 <==> exists i | 0 <= i < |lists| :: fd in lists[i]
  {
    if lists != [] {
      ListedIff(lists[1..], fd);
      if i :| 0 <= i < |lists| && fd in lists[i] {
        assert i > 0 ==> lists[1..][i - 1] == lists[i];
      }
    }
  }

  /** `result` holds every client of every socket, with the socket's name. */
  ghost predicate Collected(sockets: seq<IpcSocket>, result: set<Pair>)
    reads sockets
  {
    forall p :: p in result <==> exists i | 0 <= i < |sockets| :: p.1 == sockets[i].name && p.0 in sockets[i].clients
  }

  /** With these lists no client is listed by sockets of different names. */
  ghost predicate ListsAgree(sockets: seq<IpcSocket>, lists: seq<seq<int>>)
    requires |lists| == |sockets|
  {
    forall i, j, fd | 0 <= i < |lists| && 0 <= j < |lists| && fd in lists[i] && fd in lists[j] ::
      sockets[i].name == sockets[j].name
  }

  /** No client is listed by sockets of different names. */
  ghost predicate NamesAgree(sockets: seq<IpcSocket>)
    reads sockets
  {
    ListsAgree(sockets, Lists(sockets))
  }

  lemma CollectedSpec(sockets: seq<IpcSocket>, result: set<Pair>)
    requires Collected(sockets, result)
    ensures NamesAgree(sockets) ==> OneName(result)
    ensures forall fd :: fd in Fds(result) <==> Listings(Lists(sockets), fd) > 0
  {
    forall fd ensures fd in Fds(result) <==> Listings(Lists(sockets), fd) > 0 {
      ListedIff(Lists(sockets), fd);
      if i :| 0 <= i < |sockets| && fd in sockets[i].clients {
        var p: Pair := (fd, sockets[i].name);
        assert p in result && p.0 == fd;
      }
    }
  }

  /** Registered are exactly the listed clients. */
  ghost predicate Registers(registered: set<int>, lists: seq<seq<int>>) {
    forall fd :: fd in registered <==> Listings(lists, fd) > 0
  }

  /** One validation against the client lists as they are. */
  method ValidateNow(r: IpcReceiver, sockets: seq<IpcSocket>)
    requires r.InStep() && OneName(r.managed) && ListsAgree(sockets, Lists(sockets))
    modifies r, r.epoll
    ensures r.InStep() && OneName(r.managed) && r.epoll.failures == old(r.epoll.failures)
    ensures Registers(r.epoll.registered, Lists(sockets))
  {
    hide OneName;
    var current := r.CollectDescriptors(sockets);
    CollectedSpec(sockets, current);
    r.ValidateEPoll(current);
  }

  /** The receiver's round on Unix: validate against the client lists, then purge the clients that hung up. */
  method ReceiverRound(r: IpcReceiver, sockets: seq<IpcSocket>, dropped: seq<int>)
    requires r.InStep() && OneName(r.managed) && NamesAgree(sockets)
    requires forall i, j | 0 <= i < j < |sockets| :: sockets[i] != sockets[j]
    modifies r, r.epoll, sockets
    ensures r.InStep() && OneName(r.managed) && NamesAgree(sockets) && r.epoll.failures == old(r.epoll.failures)
    ensures Registers(r.epoll.registered, old(Lists(sockets)))
    ensures Lists(sockets) == Purge(old(Lists(sockets)), dropped)
  {
    hide OneName, Registers, ListsAgree;
    PurgedAgree(sockets, Lists(sockets), dropped);
    ValidateNow(r, sockets);
    r.PurgeSockets(sockets, dropped);
  }

  lemma PurgedAgree(sockets: seq<IpcSocket>, lists: seq<seq<int>>, dropped: seq<int>)
    requires |lists| == |sockets| && ListsAgree(sockets, lists)
    ensures |Purge(lists, dropped)| == |sockets| && ListsAgree(sockets, Purge(lists, dropped))
  {
    PurgeShrinks(lists, dropped);
  }

  /** Purging adds no listing, so sockets whose names agree still agree afterwards. */
  lemma {:induction false} PurgeShrinks(lists: seq<seq<int>>, dropped: seq<int>)
    ensures |Purge(lists, dropped)| == |lists|
    ensures forall i, fd | 0 <= i < |lists| && fd in Purge(lists, dropped)[i] :: fd in lists[i]
    decreases |dropped|
  {
    if dropped != [] {
      PurgeOneShrinks(lists, dropped[0]);
      PurgeShrinks(PurgeOne(lists, dropped[0]), dropped[1..]);
    }
  }

  lemma {:induction false} PurgeOneShrinks(lists: seq<seq<int>>, fd: int)
    ensures |PurgeOne(lists, fd)| == |lists|
    ensures forall i, y | 0 <= i < |lists| && y in PurgeOne(lists, fd)[i] :: y in lists[i]
  {
    if lists != [] {
      if fd in lists[0] {
        EraseShrinks(lists[0], fd);
      } else {
        PurgeOneShrinks(lists[1..], fd);
      }
    }
  }

  lemma {:induction false} EraseShrinks(s: seq<int>, x: int)
    ensures forall y | y in Erase(s, x) :: y in s
  {
    if s != [] {
      EraseShrinks(s[1..], x);
    }
  }

  /** So after the next round a client is registered exactly if it was listed more often than it hung up. */
  lemma PurgedAreUnregisteredNext(lists: seq<seq<int>>, dropped: seq<int>, fd: int)
    ensures Listings(Purge(lists, dropped), fd) > 0 <==> Listings(lists, fd) > CountIn(dropped, fd)
  {
    PurgeCounts(lists, dropped, fd);
  }

  // ---------- Whole runs of the receiver ----------

  /** Clients are listed and delisted at any moment; the receiver validates, and purges clients that hung up. */
  datatype Change = Enter(i: nat, fd: int) | Exit(i: nat, fd: int) | Reset(i: nat) | Validate |
      Hangups(dropped: seq<int>)

  /** What a change does to the client lists. */
  function Changed(lists: seq<seq<int>>, c: Change): (r: seq<seq<int>>)
    ensures |r| == |lists|
  {
    match c
    case Enter(i, fd) => if i < |lists| then lists[i := Insert(lists[i], fd)] else lists
    case Exit(i, fd) => if i < |lists| then lists[i := Erase(lists[i], fd)] else lists
    case Reset(i) => if i < |lists| then lists[i := []] else lists
    case Validate => lists
    case Hangups(dropped) =>
      PurgeShrinks(lists, dropped);
      Purge(lists, dropped)
  }

  function ListsAfter(lists: seq<seq<int>>, changes: seq<Change>, k: nat): (r: seq<seq<int>>)
    requires k <= |changes|
    ensures |r| == |lists|
    decreases k
  {
    if k == 0 then lists else Changed(ListsAfter(lists, changes, k - 1), changes[k - 1])
  }

  /** Applies a change that is not the receiver's own. */
  method ApplyChange(r: IpcReceiver, sockets: seq<IpcSocket>, c: Change)
    requires forall i, j | 0 <= i < j < |sockets| :: sockets[i] != sockets[j]
    requires !c.Validate?
    modifies sockets
    ensures Lists(sockets) == Changed(old(Lists(sockets)), c)
  {
    hide Insert, Erase, Purge, NoDup, Lists;
    ListsAre(sockets);
    ghost var lists := Lists(sockets);
    match c {
      case Enter(i, fd) =>
        if i < |sockets| {
          sockets[i].AddClientDescriptor(fd);
          ListsUpdated(sockets, lists, i);
        }
      case Exit(i, fd) =>
        if i < |sockets| {
          sockets[i].RemoveClientDescriptor(fd);
          ListsUpdated(sockets, lists, i);
        }
      case Reset(i) =>
        if i < |sockets| {
          sockets[i].ClearClientsDescriptor();
          ListsUpdated(sockets, lists, i);
        }
      case Hangups(dropped) =>
        r.PurgeSockets(sockets, dropped);
    }
  }

  lemma ListsAre(sockets: seq<IpcSocket>)
    ensures |Lists(sockets)| == |sockets| && forall k | 0 <= k < |sockets| :: Lists(sockets)[k] == sockets[k].clients
  {
  }

  lemma ListsUpdated(sockets: seq<IpcSocket>, lists: seq<seq<int>>, i: nat)
    requires i < |sockets| == |lists| && forall k | 0 <= k < |lists| && k != i :: sockets[k].clients == lists[k]
    ensures Lists(sockets) == lists[i := sockets[i].clients]
  {
  }

  /** `registered` is the interest set at the start and after each of the first `n` changes: after a validation the
      clients listed then, after any other change what it was. */
  ghost predicate Follows(registered: seq<set<int>>, lists: seq<seq<int>>, changes: seq<Change>, n: nat)
    requires n <= |changes|
  {
    && |registered| == n + 1 && registered[0] == {}
    && (forall k | 0 <= k < n && changes[k].Validate? :: Registers(registered[k + 1], ListsAfter(lists, changes, k)))
    && (forall k | 0 <= k < n && !changes[k].Validate? :: registered[k + 1] == registered[k])
  }

  lemma FollowsMore(registered: seq<set<int>>, lists: seq<seq<int>>, changes: seq<Change>, n: nat, next: set<int>)
    requires n < |changes| && Follows(registered, lists, changes, n)
    requires if changes[n].Validate? then Registers(next, ListsAfter(lists, changes, n)) else next == registered[n]
    ensures Follows(registered + [next], lists, changes, n + 1)
    ensures ListsAfter(lists, changes, n + 1) == Changed(ListsAfter(lists, changes, n), changes[n])
  {
  }

  // What the changes do to one client.

  /** A client listed at one place stays there until it exits from there, the place is reset, or it hangs up. */
  lemma {:induction false} ChangedKeeps(lists: seq<seq<int>>, c: Change, i: nat, fd: int)
    requires i < |lists| && fd in lists[i]
    requires c != Exit(i, fd) && c != Reset(i) && !(c.Hangups? && fd in c.dropped)
    ensures fd in Changed(lists, c)[i]
  {
    match c {
      case Exit(_, x) => EraseCounts(lists[i], x, fd);
      case Hangups(dropped) => PurgeKeeps(lists, dropped, i, fd);
      case _ =>
    }
  }

  lemma {:induction false} PurgeKeeps(lists: seq<seq<int>>, dropped: seq<int>, i: nat, fd: int)
    requires i < |lists| && fd in lists[i] && fd !in dropped
    ensures |Purge(lists, dropped)| == |lists| && fd in Purge(lists, dropped)[i]
    decreases |dropped|
  {
    if dropped != [] {
      PurgeOneKeeps(lists, dropped[0], i, fd);
      PurgeKeeps(PurgeOne(lists, dropped[0]), dropped[1..], i, fd);
    }
  }

  lemma {:induction false} PurgeOneKeeps(lists: seq<seq<int>>, x: int, i: nat, fd: int)
    requires i < |lists| && fd in lists[i] && fd != x
    ensures |PurgeOne(lists, x)| == |lists| && fd in PurgeOne(lists, x)[i]
  {
    PurgeOneShrinks(lists, x);
    if x in lists[0] {
      EraseCounts(lists[0], x, fd);
    } else if i > 0 {
      PurgeOneKeeps(lists[1..], x, i - 1, fd);
    }
  }

  /** No client appears at a place except by entering there. */
  lemma {:induction false} ChangedAdds(lists: seq<seq<int>>, c: Change, i: nat, fd: int)
    requires i < |lists| && fd in Changed(lists, c)[i]
    ensures fd in lists[i] || c == Enter(i, fd)
  {
    match c {
      case Exit(j, x) =>
        if j < |lists| {
          EraseShrinks(lists[j], x);
        }
      case Hangups(dropped) => PurgeShrinks(lists, dropped);
      case _ =>
    }
  }

  /** Lists without duplicates stay so; then a client that exits from a place, or whose place is reset, is gone from
      it. */
  lemma {:induction false} ChangedDrops(lists: seq<seq<int>>, c: Change, i: nat)
    requires i < |lists| && forall k | 0 <= k < |lists| :: NoDup(lists[k])
    ensures forall k | 0 <= k < |lists| :: NoDup(Changed(lists, c)[k])
    ensures c.Exit? && c.i == i ==> c.fd !in Changed(lists, c)[i]
    ensures c == Reset(i) ==> Changed(lists, c)[i] == []
  {
    match c {
      case Exit(j, x) =>
        if j < |lists| {
          EraseSpec(lists[j], x);
        }
      case Hangups(dropped) => PurgeNoDup(lists, dropped);
      case _ =>
    }
  }

  lemma {:induction false} PurgeNoDup(lists: seq<seq<int>>, dropped: seq<int>)
    requires forall k | 0 <= k < |lists| :: NoDup(lists[k])
    ensures |Purge(lists, dropped)| == |lists| && forall k | 0 <= k < |lists| :: NoDup(Purge(lists, dropped)[k])
    decreases |dropped|
  {
    if dropped != [] {
      PurgeOneNoDup(lists, dropped[0]);
      PurgeNoDup(PurgeOne(lists, dropped[0]), dropped[1..]);
    }
  }

  lemma {:induction false} PurgeOneNoDup(lists: seq<seq<int>>, x: int)
    requires forall k | 0 <= k < |lists| :: NoDup(lists[k])
    ensures |PurgeOne(lists, x)| == |lists| && forall k | 0 <= k < |lists| :: NoDup(PurgeOne(lists, x)[k])
  {
    if lists != [] {
      if x in lists[0] {
        EraseSpec(lists[0], x);
      } else {
        assert forall k | 0 <= k < |lists[1..]| :: lists[1..][k] == lists[k + 1];
        PurgeOneNoDup(lists[1..], x);
      }
    }
  }

  lemma {:induction false} StaysListed(lists: seq<seq<int>>, changes: seq<Change>, a: nat, k: nat, i: nat, fd: int)
    requires a <= k <= |changes| && i < |lists| && fd in ListsAfter(lists, changes, a)[i]
    requires forall j | a <= j < k ::
               changes[j] != Exit(i, fd) && changes[j] != Reset(i) && !(changes[j].Hangups? && fd in changes[j].dropped)
    ensures fd in ListsAfter(lists, changes, k)[i]
    decreases k
  {
    if a < k {
      StaysListed(lists, changes, a, k - 1, i, fd);
      ChangedKeeps(ListsAfter(lists, changes, k - 1), changes[k - 1], i, fd);
    }
  }

  /** After any validation exactly the clients that some socket lists are registered. */
  lemma {:induction false} RegisteredIff(registered: seq<set<int>>, lists: seq<seq<int>>, changes: seq<Change>, n: nat,
      k: nat, fd: int)
    requires n <= |changes| && Follows(registered, lists, changes, n) && k < n && changes[k].Validate?
    ensures var after := ListsAfter(lists, changes, k);
            fd in registered[k + 1] <==> exists i | 0 <= i < |after| :: fd in after[i]
  {
    hide Listings;
    ListedIff(ListsAfter(lists, changes, k), fd);
  }

  /** A client that entered is registered by every validation before it exits, its place is reset, or it hangs up. */
  lemma {:induction false} EnteredIsRegistered(registered: seq<set<int>>, lists: seq<seq<int>>, changes: seq<Change>,
      n: nat, a: nat, k: nat, i: nat, fd: int)
    requires n <= |changes| && Follows(registered, lists, changes, n) && a < k < n
    requires i < |lists| && changes[a] == Enter(i, fd) && changes[k].Validate?
    requires forall j | a < j < k ::
               changes[j] != Exit(i, fd) && changes[j] != Reset(i) && !(changes[j].Hangups? && fd in changes[j].dropped)
    ensures fd in registered[k + 1]
  {
    var before := ListsAfter(lists, changes, a);
    assert fd in Changed(before, changes[a])[i];
    StaysListed(lists, changes, a + 1, k, i, fd);
    assert fd in ListsAfter(lists, changes, k)[i];
    RegisteredIff(registered, lists, changes, n, k, fd);
  }

  /** Over any sequence of validations, purges, and clients coming and going in between, also between a validation and
      the purge of its round: when every snapshot gives each descriptor one name, no kernel call ever fails, and each
      validation leaves exactly the clients listed then registered. */
  method RunReceiver(sockets: seq<IpcSocket>, changes: seq<Change>)
    returns (r: IpcReceiver, ghost registered: seq<set<int>>)
    requires forall i, j | 0 <= i < j < |sockets| :: sockets[i] != sockets[j]
    requires forall k | 0 <= k < |changes| && changes[k].Validate? ::
               ListsAgree(sockets, ListsAfter(Lists(sockets), changes, k))
    modifies sockets
    ensures fresh(r) && fresh(r.epoll) && r.epoll.failures == 0
    ensures Lists(sockets) == ListsAfter(old(Lists(sockets)), changes, |changes|)
    ensures Follows(registered, old(Lists(sockets)), changes, |changes|)
    ensures r.epoll.registered == registered[|changes|]
  {
    hide Changed, OneName, Lists, Listings, Registers;
    ghost var lists := Lists(sockets);
    r := new IpcReceiver();
    registered := [{}];
    NoneYet();
    for n := 0 to |changes|
      invariant fresh(r) && fresh(r.epoll) && r.InStep() && OneName(r.managed) && r.epoll.failures == 0
      invariant |Lists(sockets)| == |lists| == |sockets| && Lists(sockets) == ListsAfter(lists, changes, n)
      invariant Follows(registered, lists, changes, n) && registered[n] == r.epoll.registered
    {
      if changes[n].Validate? {
        ValidateNow(r, sockets);
        ValidateKeepsLists(Lists(sockets));
      } else {
        ApplyChange(r, sockets, changes[n]);
      }
      FollowsMore(registered, lists, changes, n, r.epoll.registered);
      registered := registered + [r.epoll.registered];
    }
  }

  lemma ValidateKeepsLists(lists: seq<seq<int>>)
    ensures Changed(lists, Validate) == lists
  {
  }
}
