/**
 A window over a growing sequence: a reader takes items in order, and a cleanup policy keeps at most
 `historyDepth` of the items already read.

 Assumption: the read position is an index into the deque, so that a position at the old end denotes the item
 pushed next.  (`std::deque::push_back` formally invalidates the iterator the program keeps.)
 */
module SlidingWindows {
  import opened Common

  function Min(a: nat, b: nat): (r: nat)
    ensures r <= a && r <= b && (r == a || r == b)
  {
    if a < b then a else b
  }

  class SlidingWindow<T> {
    var storage: seq<T>
    var nextRead: nat
    var historyDepth: nat
    ghost var added: seq<T>
    ghost var delivered: nat

    /** Storage is a suffix of everything added, what was delivered is a prefix of it, and the read position
        separates the two, so nothing unread was evicted. */
    ghost predicate Valid()
      reads this
    {
      && nextRead <= |storage| <= |added| && storage == added[|added| - |storage|..]
      && delivered == |added| - |storage| + nextRead
    }

    ghost function Unread(): seq<T>
      requires Valid()
      reads this
    {
      added[delivered..]
    }

    constructor (depth: nat)
      ensures Valid() && added == [] && delivered == 0 && historyDepth == depth && Unread() == [] && nextRead == 0
    {
      storage, nextRead, historyDepth, added, delivered := [], 0, depth, [], 0;
    }

    /** Pops read items from the front while there are too many. */
    method Cleanup()
      requires Valid()
      modifies `storage, `nextRead
      ensures Valid() && nextRead == Min(old(nextRead), historyDepth)
      ensures storage == old(storage)[old(nextRead) - nextRead..]
    {
      while nextRead > historyDepth
        invariant Valid() && nextRead <= old(nextRead) && nextRead >= Min(old(nextRead), historyDepth)
        invariant storage == old(storage)[old(nextRead) - nextRead..]
      {
        storage := storage[1..];
        nextRead := nextRead - 1;
      }
    }

    method AddData(x: T)
      requires Valid()
      modifies this
      ensures Valid() && added == old(added) + [x] && delivered == old(delivered)
      ensures Unread() == old(Unread()) + [x]
      ensures nextRead == Min(old(nextRead), historyDepth) && historyDepth == old(historyDepth)
    {
      storage := storage + [x];
      added := added + [x];
      // With an index the position is never the new end, so this reset leaves it alone.
      var position: int := if nextRead == |storage| then 0 else nextRead;
      nextRead := position;
      Cleanup();
    }

    method HasNextData() returns (more: bool)
      requires Valid()
      ensures more <==> Unread() != []
    {
      more := nextRead != |storage|;
    }

    method GetNextData() returns (result: Option<T>)
      requires Valid()
      modifies this
      ensures Valid() && added == old(added) && historyDepth == old(historyDepth)
      ensures old(Unread()) == [] ==>
                && result.None? && delivered == old(delivered) && storage == old(storage)
                && Unread() == [] && nextRead == old(nextRead)
      ensures old(Unread()) != [] ==>
                && result == Some(old(Unread())[0]) && delivered == old(delivered) + 1
                && Unread() == old(Unread())[1..] && nextRead == Min(old(nextRead) + 1, historyDepth)
    {
      if nextRead != |storage| {
        result := Some(storage[nextRead]);
        nextRead := nextRead + 1;
        delivered := delivered + 1;
        Cleanup();
      } else {
        result := None;
      }
    }

    /** Takes effect on items read so far at the next call that cleans up. */
    method SetHistoryDepth(depth: nat)
      requires Valid()
      modifies `historyDepth
      ensures Valid() && historyDepth == depth && Unread() == old(Unread())
    {
      historyDepth := depth;
    }
  }

  // ---------- Whole runs ----------

  datatype Op<T> = Add(x: T) | Get | SetDepth(depth: nat)

  /** What the `Get`s of a run return from a plain unbounded queue holding `q`. */
  function QueueOutputs<T>(q: seq<T>, ops: seq<Op<T>>): seq<Option<T>>
    decreases |ops|
  {
    if ops == [] then []
    else match ops[0]
      case Add(x) => QueueOutputs(q + [x], ops[1..])
      case Get =>
        if q == [] then [None] + QueueOutputs(q, ops[1..])
        else [Some(q[0])] + QueueOutputs(q[1..], ops[1..])
      case SetDepth(_) => QueueOutputs(q, ops[1..])
  }

  function Added<T>(ops: seq<Op<T>>): seq<T> {
    if ops == [] then [] else (if ops[0].Add? then [ops[0].x] else []) + Added(ops[1..])
  }

  function Delivered<T>(outputs: seq<Option<T>>): seq<T> {
    if outputs == [] then [] else (if outputs[0].Some? then [outputs[0].value] else []) + Delivered(outputs[1..])
  }

  /** A queue delivers a prefix of what it held and what was added, each item once and in order. */
  lemma {:induction false} QueueDeliversPrefix<T>(q: seq<T>, ops: seq<Op<T>>)
    ensures Delivered(QueueOutputs(q, ops)) <= q + Added(ops)
    decreases |ops|
  {
    if ops != [] {
      var rest := ops[1..];
      match ops[0] {
        case Add(x) =>
          QueueDeliversPrefix(q + [x], rest);
          assert q + [x] + Added(rest) == q + ([x] + Added(rest));
        case Get =>
          if q == [] {
            QueueDeliversPrefix(q, rest);
            DeliveredCons(None, QueueOutputs(q, rest));
          } else {
            QueueDeliversPrefix(q[1..], rest);
            DeliveredCons(Some(q[0]), QueueOutputs(q[1..], rest));
            assert q + Added(rest) == [q[0]] + (q[1..] + Added(rest));
          }
          assert [] + Added(rest) == Added(rest);
        case SetDepth(_) =>
          QueueDeliversPrefix(q, rest);
          assert [] + Added(rest) == Added(rest);
      }
    }
  }

  lemma DeliveredCons<T>(o: Option<T>, outputs: seq<Option<T>>)
    ensures Delivered([o] + outputs) == (if o.Some? then [o.value] else []) + Delivered(outputs)
  {
  }

  /** `kept` is how many read items the window stores after each operation of a run: at most the history depth in
      force after every addition and after every `Get` that delivers something. */
  predicate WithinDepth<T>(q: seq<T>, depth: nat, ops: seq<Op<T>>, kept: seq<nat>)
    requires |kept| == |ops|
    decreases |ops|
  {
    ops != [] ==>
      match ops[0]
      case Add(x) => kept[0] <= depth && WithinDepth(q + [x], depth, ops[1..], kept[1..])
      case Get => (q != [] ==> kept[0] <= depth)
          && WithinDepth(if q == [] then q else q[1..], depth, ops[1..], kept[1..])
      case SetDepth(d) => WithinDepth(q, d, ops[1..], kept[1..])
  }

  /** How many read items are kept after each operation when `n` are kept before: one more for each delivered, cut down
      to the depth by every addition and every delivery, and by nothing else. */
  function Counts<T>(q: seq<T>, n: nat, depth: nat, ops: seq<Op<T>>): (kept: seq<nat>)
    ensures |kept| == |ops|
    decreases |ops|
  {
    if ops == [] then []
    else match ops[0]
      case Add(x) => [Min(n, depth)] + Counts(q + [x], Min(n, depth), depth, ops[1..])
      case Get =>
        if q == [] then [n] + Counts(q, n, depth, ops[1..])
        else [Min(n + 1, depth)] + Counts(q[1..], Min(n + 1, depth), depth, ops[1..])
      case SetDepth(d) => [n] + Counts(q, n, d, ops[1..])
  }

  lemma {:induction false} CountsWithinDepth<T>(q: seq<T>, n: nat, depth: nat, ops: seq<Op<T>>)
    ensures |Counts(q, n, depth, ops)| == |ops| && WithinDepth(q, depth, ops, Counts(q, n, depth, ops))
    decreases |ops|
  {
    if ops != [] {
      var kept := Counts(q, n, depth, ops);
      match ops[0] {
        case Add(x) =>
          CountsWithinDepth(q + [x], kept[0], depth, ops[1..]);
          assert kept[1..] == Counts(q + [x], kept[0], depth, ops[1..]);
        case Get =>
          var q' := if q == [] then q else q[1..];
          CountsWithinDepth(q', kept[0], depth, ops[1..]);
          assert kept[1..] == Counts(q', kept[0], depth, ops[1..]);
        case SetDepth(d) =>
          CountsWithinDepth(q, n, d, ops[1..]);
          assert kept[1..] == Counts(q, n, d, ops[1..]);
      }
    }
  }

  /** What one operation does to the unread items, the number of read ones and the depth, and what it delivers. */
  function OpStep<T>(q: seq<T>, n: nat, depth: nat, op: Op<T>): (seq<T>, nat, nat, seq<Option<T>>) {
    match op
    case Add(x) => (q + [x], Min(n, depth), depth, [])
    case Get => if q == [] then (q, n, depth, [None]) else (q[1..], Min(n + 1, depth), depth, [Some(q[0])])
    case SetDepth(d) => (q, n, d, [])
  }

  lemma OneOp<T>(q: seq<T>, n: nat, depth: nat, ops: seq<Op<T>>, i: nat)
    requires i < |ops|
    ensures var (q', n', depth', out) := OpStep(q, n, depth, ops[i]);
            && QueueOutputs(q, ops[i..]) == out + QueueOutputs(q', ops[i + 1..])
            && Counts(q, n, depth, ops[i..]) == [n'] + Counts(q', n', depth', ops[i + 1..])
  {
    assert ops[i..][0] == ops[i] && ops[i..][1..] == ops[i + 1..];
    var rest := QueueOutputs(OpStep(q, n, depth, ops[i]).0, ops[i + 1..]);
    assert [] + rest == rest;
  }

  lemma NoOp<T>(q: seq<T>, n: nat, depth: nat, ops: seq<Op<T>>)
    ensures QueueOutputs(q, ops[|ops|..]) == [] && Counts(q, n, depth, ops[|ops|..]) == []
  {
  }

  /** One operation on the object is one such step. */
  method Apply<T>(w: SlidingWindow<T>, op: Op<T>) returns (out: seq<Option<T>>)
    requires w.Valid()
    modifies w
    ensures w.Valid()
    ensures (w.Unread(), w.nextRead, w.historyDepth, out) ==
            OpStep(old(w.Unread()), old(w.nextRead), old(w.historyDepth), op)
  {
    hide SlidingWindow.Valid, SlidingWindow.Unread, Min;
    out := [];
    match op {
      case Add(x) => w.AddData(x);
      case Get =>
        var result := w.GetNextData();
        out := [result];
      case SetDepth(d) => w.SetHistoryDepth(d);
    }
  }

  /** Whatever the history depth and however it is changed, readers see a plain queue, and the read items the window
      stores after each operation are as many as `Counts` says, which is within the depth. */
  method RunWindow<T>(depth: nat, ops: seq<Op<T>>) returns (outputs: seq<Option<T>>, kept: seq<nat>)
    ensures outputs == QueueOutputs([], ops)
    ensures Delivered(outputs) <= Added(ops)
    ensures kept == Counts([], 0, depth, ops) && WithinDepth([], depth, ops, kept)
  {
    hide QueueOutputs, Counts, WithinDepth, Added, Delivered, OpStep, SlidingWindow.Valid, SlidingWindow.Unread;
    var w := new SlidingWindow<T>(depth);
    outputs, kept := [], [];
    assert ops[0..] == ops;
    for i := 0 to |ops|
      invariant fresh(w) && w.Valid()
      invariant outputs + QueueOutputs(w.Unread(), ops[i..]) == QueueOutputs([], ops)
      invariant kept + Counts(w.Unread(), w.nextRead, w.historyDepth, ops[i..]) == Counts([], 0, depth, ops)
    {
      ghost var before, counts := outputs, kept;
      OneOp(w.Unread(), w.nextRead, w.historyDepth, ops, i);
      var out := Apply(w, ops[i]);
      outputs, kept := outputs + out, kept + [w.nextRead];
      ghost var rest := QueueOutputs(w.Unread(), ops[i + 1..]);
      ghost var later := Counts(w.Unread(), w.nextRead, w.historyDepth, ops[i + 1..]);
      assert before + (out + rest) == outputs + rest && counts + ([w.nextRead] + later) == kept + later;
    }
    NoOp(w.Unread(), w.nextRead, w.historyDepth, ops);
    assert outputs + [] == outputs && kept == kept + [] == Counts([], 0, depth, ops);
    QueueDeliversPrefix([], ops);
    CountsWithinDepth([], 0, depth, ops);
    assert [] + Added(ops) == Added(ops);
  }
}
