/**
 The folder monitor: a buffer of variable-length inotify records drives a list of watched files, and files that
 are closed and have been left alone long enough are announced once.

 Mask bits are those of Linux's <sys/inotify.h>.  Times are steady-clock readings in nanoseconds; the n-th
 reading of a run is `clock(n)`.
 */
module FolderMonitors {
  import opened Arithmetic
  import opened Common
  import opened Converter

  type Path = seq<Byte>

  predicate Bit(mask: U32, b: nat)
    requires b > 0
  {
    mask / b % 2 == 1
  }

  predicate IsClose(mask: U32) { Bit(mask, 0x8) || Bit(mask, 0x10) }
  predicate IsOpen(mask: U32) { Bit(mask, 0x20) }
  predicate IsCreate(mask: U32) { Bit(mask, 0x100) }
  predicate IsDelete(mask: U32) { Bit(mask, 0x200) }
  predicate IsIgnored(mask: U32) { Bit(mask, 0x8000) }

  /** The bits, in arithmetic: a bit is set when what the mask leaves modulo twice its value is at least its value. */
  lemma MaskBits(mask: U32)
    ensures IsClose(mask) <==> mask % 0x10 >= 0x8 || mask % 0x20 >= 0x10
    ensures IsOpen(mask) <==> mask % 0x40 >= 0x20
    ensures IsCreate(mask) <==> mask % 0x200 >= 0x100
    ensures IsDelete(mask) <==> mask % 0x400 >= 0x200
    ensures IsIgnored(mask) <==> mask % 0x1_0000 >= 0x8000
  {
    BitIs(mask, 0x8);
    BitIs(mask, 0x10);
    BitIs(mask, 0x20);
    BitIs(mask, 0x100);
    BitIs(mask, 0x200);
    BitIs(mask, 0x8000);
  }

  lemma BitIs(mask: nat, b: nat)
    requires b > 0
    ensures mask / b % 2 == 1 <==> mask % (2 * b) >= b
  {
    var q, low := mask / b, mask % b;
    var h, odd := q / 2, q % 2;
    assert h * (2 * b) + odd * b == q * b;
    assert odd == 0 || odd == 1;
    QuotientIs(mask, 2 * b, h, odd * b + low);
  }

  datatype WatchedFile = WatchedFile(path: Path, consumed: bool, inUse: bool, lastAccess: int)

  // ---------- Records ----------

  datatype Event = Event(wd: U32, mask: U32, cookie: U32, name: Path)

  predicate WellFormed(e: Event) { |e.name| < 0x1_0000_0000 }

  /** Four little-endian words and the name, padding included. */
  function EventBytes(e: Event): (b: seq<Byte>)
    ensures |b| == 16 + |e.name|
  {
    ToLittle(e.wd, 4) + ToLittle(e.mask, 4) + ToLittle(e.cookie, 4) + ToLittle(|e.name|, 4) + e.name
  }

  function BufferBytes(events: seq<Event>): seq<Byte> {
    if events == [] then [] else EventBytes(events[0]) + BufferBytes(events[1..])
  }

  lemma Little32(v: U32)
    ensures FromLittle(ToLittle(v, 4)) == v
  {
    assert Pow256(4) == 0x1_0000_0000;
    LittleRoundTrip(v, 4);
  }

  /** The fields sit where the record structure says, whatever follows. */
  lemma {:induction false} FieldsOf(e: Event, rest: seq<Byte>)
    requires WellFormed(e)
    ensures var b := EventBytes(e) + rest;
            && |b| == 16 + |e.name| + |rest| && FromLittle(b[4..8]) == e.mask && FromLittle(b[12..16]) == |e.name|
            && b[16..16 + |e.name|] == e.name && b[16 + |e.name|..] == rest
  {
    hide ToLittle, FromLittle;
    var b := EventBytes(e) + rest;
    var w, m, c, l := ToLittle(e.wd, 4), ToLittle(e.mask, 4), ToLittle(e.cookie, 4), ToLittle(|e.name|, 4);
    Little32(e.mask);
    Little32(|e.name|);
    assert b == w + m + (c + l + e.name + rest);
    Middle(w, m, c + l + e.name + rest);
    assert b == (w + m + c) + l + (e.name + rest);
    Middle(w + m + c, l, e.name + rest);
    assert b == (w + m + c + l) + e.name + rest;
    Middle(w + m + c + l, e.name, rest);
  }

  lemma Middle(a: seq<Byte>, b: seq<Byte>, c: seq<Byte>)
    ensures (a + b + c)[|a|..|a| + |b|] == b && (a + b + c)[|a| + |b|..] == c
  {
  }

  lemma {:induction false} RecordAt(buffer: seq<Byte>, index: nat, length: nat, events: seq<Event>)
    requires index < length <= |buffer| && buffer[index..length] == BufferBytes(events)
    requires forall e | e in events :: WellFormed(e)
    ensures events != [] && index + 16 + |events[0].name| <= length
    ensures FromLittle(buffer[index + 4..index + 8]) == events[0].mask
    ensures FromLittle(buffer[index + 12..index + 16]) == |events[0].name|
    ensures buffer[index + 16..index + 16 + |events[0].name|] == events[0].name
    ensures buffer[index + 16 + |events[0].name|..length] == BufferBytes(events[1..])
  {
    hide EventBytes;
    var e, b := events[0], buffer[index..length];
    assert b == EventBytes(e) + BufferBytes(events[1..]);
    FieldsOf(e, BufferBytes(events[1..]));
    Slice(buffer, index, length, 4, 8);
    Slice(buffer, index, length, 12, 16);
    Slice(buffer, index, length, 16, 16 + |e.name|);
    Slice(buffer, index, length, 16 + |e.name|, |b|);
  }

  lemma Slice(s: seq<Byte>, from: nat, to: nat, i: nat, j: nat)
    requires from <= to <= |s| && i <= j <= to - from
    ensures s[from..to][i..j] == s[from + i..from + j]
  {
    var a, b := s[from..to][i..j], s[from + i..from + j];
    assert forall k | 0 <= k < j - i :: a[k] == s[from..to][i + k] == b[k];
    assert a == b;
  }

  // ---------- One event ----------

  /** Position of the first file with this path, or the number of files. */
  function IndexOf(files: seq<WatchedFile>, path: Path): (i: nat)
    ensures i <= |files| && (i < |files| ==> files[i].path == path)
    ensures forall k | 0 <= k < i :: files[k].path != path
  {
    if files == [] || files[0].path == path then 0 else 1 + IndexOf(files[1..], path)
  }

  function StateChange(f: WatchedFile, mask: U32, now: int): WatchedFile {
    var touched := f.(lastAccess := now);
    if IsOpen(mask) then touched.(inUse := true)
    else if IsClose(mask) then touched.(inUse := false)
    else touched
  }

  function Handle(files: seq<WatchedFile>, mask: U32, path: Path, now: int): seq<WatchedFile> {
    var i := IndexOf(files, path);
    if IsIgnored(mask) then files
    else if IsCreate(mask) then files + [WatchedFile(path, false, false, now)]
    else if i == |files| then files
    else if IsDelete(mask) then files[..i] + files[i + 1..]
    else files[i := StateChange(files[i], mask, now)]
  }

  /** What an event does, spelled out; `i` is where its path is listed first. */
  lemma HandleIs(files: seq<WatchedFile>, mask: U32, path: Path, now: int, i: nat)
    requires i <= |files| && (i < |files| ==> files[i].path == path) && forall k | 0 <= k < i :: files[k].path != path
    ensures Handle(files, mask, path, now) ==
            if mask % 0x1_0000 >= 0x8000 then files
            else if mask % 0x200 >= 0x100 then files + [WatchedFile(path, false, false, now)]
            else if i == |files| then files
            else if mask % 0x400 >= 0x200 then files[..i] + files[i + 1..]
            else if mask % 0x40 >= 0x20 then files[i := WatchedFile(path, files[i].consumed, true, now)]
            else if mask % 0x10 >= 0x8 || mask % 0x20 >= 0x10 then
              files[i := WatchedFile(path, files[i].consumed, false, now)]
            else files[i := WatchedFile(path, files[i].consumed, files[i].inUse, now)]
  {
    MaskBits(mask);
    assert i == IndexOf(files, path);
  }

  function HandleAll(files: seq<WatchedFile>, events: seq<Event>, clock: nat -> int, tick: nat): seq<WatchedFile>
    decreases |events|
  {
    if events == [] then files
    else HandleAll(Handle(files, events[0].mask, events[0].name, clock(tick)), events[1..], clock, tick + 1)
  }

  // ---------- Announcing ----------

  /** Whole milliseconds in a number of nanoseconds, cut off towards zero. */
  function Millis(nanos: int): int { if nanos >= 0 then nanos / 1_000_000 else -(-nanos / 1_000_000) }

  /** Left alone for longer than the timeout, counted in whole milliseconds. */
  predicate NotTouchedIn(f: WatchedFile, now: int, timeout: int) { Millis(now - f.lastAccess) > timeout }

  predicate Ready(f: WatchedFile, now: int, timeout: int) { !f.consumed && !f.inUse && NotTouchedIn(f, now, timeout) }

  /** The same in nanoseconds. */
  lemma ReadyIff(f: WatchedFile, now: int, timeout: int)
    ensures Ready(f, now, timeout) <==>
            && !f.consumed && !f.inUse
            && (if timeout >= 0 then now - f.lastAccess >= (timeout + 1) * 1_000_000
                else now - f.lastAccess > timeout * 1_000_000)
  {
  }

  function Announce(files: seq<WatchedFile>, clock: nat -> int, tick: nat, timeout: int): seq<Path> {
    if files == [] then []
    else
      (if Ready(files[0], clock(tick), timeout) then [files[0].path] else []) +
      Announce(files[1..], clock, tick + 1, timeout)
  }

  /** Files are looked at in list order, one reading of the clock each. */
  lemma {:induction false} AnnounceConcat(a: seq<WatchedFile>, b: seq<WatchedFile>, clock: nat -> int, tick: nat,
      timeout: int)
    ensures Announce(a + b, clock, tick, timeout) ==
            Announce(a, clock, tick, timeout) + Announce(b, clock, tick + |a|, timeout)
  {
    hide Ready;
    if a == [] {
      assert a + b == b;
    } else {
      assert (a + b)[1..] == a[1..] + b && (a + b)[0] == a[0];
      AnnounceConcat(a[1..], b, clock, tick + 1, timeout);
      var first := if Ready(a[0], clock(tick), timeout) then [a[0].path] else [];
      var x, y := Announce(a[1..], clock, tick + 1, timeout), Announce(b, clock, tick + |a|, timeout);
      assert first + (x + y) == (first + x) + y;
    }
  }

  lemma AnnounceOne(f: WatchedFile, clock: nat -> int, tick: nat, timeout: int)
    ensures Announce([], clock, tick, timeout) == []
    ensures Announce([f], clock, tick, timeout) == if Ready(f, clock(tick), timeout) then [f.path] else []
  {
    assert [f][1..] == [];
  }

  function MarkConsumed(files: seq<WatchedFile>, clock: nat -> int, tick: nat, timeout: int): (r: seq<WatchedFile>)
    ensures |r| == |files|
  {
    if files == [] then []
    else [files[0].(consumed := files[0].consumed || Ready(files[0], clock(tick), timeout))]
         + MarkConsumed(files[1..], clock, tick + 1, timeout)
  }

  // ---------- The monitor object ----------

  class FolderMonitor {
    var watchedFiles: seq<WatchedFile>
    var fileReadyTimeout: int
    const clock: nat -> int
    var tick: nat

    constructor (clock: nat -> int)
      ensures watchedFiles == [] && fileReadyTimeout == 2000 && this.clock == clock && tick == 0
    {
      watchedFiles, fileReadyTimeout, this.clock, tick := [], 2000, clock, 0;
    }

    method GetWatchedFile(path: Path) returns (i: nat)
      ensures i == IndexOf(watchedFiles, path)
    {
      i := 0;
      while i < |watchedFiles| && watchedFiles[i].path != path
        invariant i <= |watchedFiles|
        invariant IndexOf(watchedFiles, path) == i + IndexOf(watchedFiles[i..], path)
      {
        assert watchedFiles[i..][1..] == watchedFiles[i + 1..];
        i := i + 1;
      }
    }

    method HandleStateChange(i: nat, mask: U32)
      requires i < |watchedFiles|
      modifies `watchedFiles
      ensures watchedFiles == old(watchedFiles)[i := StateChange(old(watchedFiles)[i], mask, clock(tick))]
    {
      var file := watchedFiles[i].(lastAccess := clock(tick));
      if IsOpen(mask) {
        file := file.(inUse := true);
      } else if IsClose(mask) {
        file := file.(inUse := false);
      }
      watchedFiles := watchedFiles[i := file];
    }

    /** One event, after its fields have been read. */
    method HandleEvent(mask: U32, path: Path)
      modifies `watchedFiles
      ensures watchedFiles == Handle(old(watchedFiles), mask, path, clock(tick))
    {
      if IsIgnored(mask) {
        return;
      }
      if IsCreate(mask) {
        watchedFiles := watchedFiles + [WatchedFile(path, false, false, clock(tick))];
      } else {
        var i := GetWatchedFile(path);
        if i < |watchedFiles| {
          if IsDelete(mask) {
            watchedFiles := watchedFiles[..i] + watchedFiles[i + 1..];
          } else {
            HandleStateChange(i, mask);
          }
        }
      }
    }

    /** Parses `length` bytes of records; the watched files end as the events folded in order. */
    method ParseEvents(eventBuffer: seq<Byte>, length: nat, ghost events: seq<Event>)
      requires length <= |eventBuffer| && eventBuffer[..length] == BufferBytes(events)
      requires forall e | e in events :: WellFormed(e)
      modifies `watchedFiles, `tick
      ensures watchedFiles == HandleAll(old(watchedFiles), events, clock, old(tick)) && tick == old(tick) + |events|
    {
      hide EventBytes, Handle;
      var index := 0;
      ghost var left := events;
      while index < length
        invariant index <= length && eventBuffer[index..length] == BufferBytes(left)
        invariant forall e | e in left :: WellFormed(e)
        invariant HandleAll(watchedFiles, left, clock, tick) == HandleAll(old(watchedFiles), events, clock, old(tick))
        invariant tick + |left| == old(tick) + |events|
        decreases length - index
      {
        RecordAt(eventBuffer, index, length, left);
        var mask := FromLittle(eventBuffer[index + 4..index + 8]);
        var len := FromLittle(eventBuffer[index + 12..index + 16]);
        var path := eventBuffer[index + 16..index + 16 + len];
        index := index + 16 + len;
        HandleEvent(mask, path);
        tick := tick + 1;
        left := left[1..];
      }
      assert left == [];
    }

    /** Announces every ready file, in list order, and marks it consumed. */
    method Process() returns (announced: seq<Path>)
      modifies `watchedFiles, `tick
      ensures announced == Announce(old(watchedFiles), clock, old(tick), fileReadyTimeout)
      ensures watchedFiles == MarkConsumed(old(watchedFiles), clock, old(tick), fileReadyTimeout)
      ensures tick == old(tick) + |old(watchedFiles)|
    {
      hide Announce, MarkConsumed;
      announced := [];
      var start := tick;
      ProcessNothing(clock, tick + |watchedFiles|, fileReadyTimeout);
      for i := 0 to |watchedFiles|
        invariant |watchedFiles| == |old(watchedFiles)| && tick == start + i
        invariant announced + Announce(watchedFiles[i..], clock, tick, fileReadyTimeout)
                  == Announce(old(watchedFiles), clock, start, fileReadyTimeout)
        invariant watchedFiles[..i] + MarkConsumed(watchedFiles[i..], clock, tick, fileReadyTimeout)
                  == MarkConsumed(old(watchedFiles), clock, start, fileReadyTimeout)
      {
        ProcessStep(announced, watchedFiles, i, clock, tick, fileReadyTimeout);
        var file := watchedFiles[i];
        if !file.consumed && !file.inUse && NotTouchedIn(file, clock(tick), fileReadyTimeout) {
          file := file.(consumed := true);
          announced := announced + [file.path];
        }
        watchedFiles := watchedFiles[i := file];
        tick := tick + 1;
      }
    }
  }

  lemma ProcessNothing(clock: nat -> int, tick: nat, timeout: int)
    ensures Announce([], clock, tick, timeout) == [] && MarkConsumed([], clock, tick, timeout) == []
  {
  }

  /** One turn of the loop of `Process`, at file `i`. */
  lemma ProcessStep(announced: seq<Path>, files: seq<WatchedFile>, i: nat, clock: nat -> int, tick: nat, timeout: int)
    requires i < |files|
    ensures var f, now := files[i], clock(tick);
            var f' := if Ready(f, now, timeout) then f.(consumed := true) else f;
            var more := if Ready(f, now, timeout) then [f.path] else [];
            && announced + Announce(files[i..], clock, tick, timeout)
               == announced + more + Announce(files[i := f'][i + 1..], clock, tick + 1, timeout)
            && files[..i] + MarkConsumed(files[i..], clock, tick, timeout)
               == files[i := f'][..i + 1] + MarkConsumed(files[i := f'][i + 1..], clock, tick + 1, timeout)
  {
  }

  // ---------- Whole runs ----------

  datatype Obs = Seen(mask: U32, path: Path, at: int) | Announced(path: Path, at: int)

  datatype Monitor = Monitor(files: seq<WatchedFile>, tick: nat, log: seq<Obs>)

  const INIT := Monitor([], 0, [])

  datatype Step = Deliver(mask: U32, path: Path) | Process

  /** The announcements of one `Process`, with the times at which they were made. */
  function AnnounceLog(files: seq<WatchedFile>, clock: nat -> int, tick: nat, timeout: int): seq<Obs> {
    if files == [] then []
    else (if Ready(files[0], clock(tick), timeout) then [Announced(files[0].path, clock(tick))] else [])
         + AnnounceLog(files[1..], clock, tick + 1, timeout)
  }

  function Next(m: Monitor, step: Step, clock: nat -> int, timeout: int): Monitor {
    match step
    case Deliver(mask, path) =>
      var now := clock(m.tick);
      Monitor(Handle(m.files, mask, path, now), m.tick + 1, m.log + [Seen(mask, path, now)])
    case Process =>
      Monitor(MarkConsumed(m.files, clock, m.tick, timeout), m.tick + |m.files|,
              m.log + AnnounceLog(m.files, clock, m.tick, timeout))
  }

  function After(m: Monitor, run: seq<Step>, clock: nat -> int, timeout: int): Monitor
    decreases |run|
  {
    if run == [] then m else After(Next(m, run[0], clock, timeout), run[1..], clock, timeout)
  }

  // ---------- The object's calls are these steps ----------

  function AnnouncedPaths(log: seq<Obs>): seq<Path> {
    if log == [] then []
    else (if log[0].Announced? then [log[0].path] else []) + AnnouncedPaths(log[1..])
  }

  /** What `Process` hands to its consumer is what the step of a run logs. */
  lemma {:induction false} ProcessIsStep(files: seq<WatchedFile>, clock: nat -> int, tick: nat, timeout: int)
    ensures AnnouncedPaths(AnnounceLog(files, clock, tick, timeout)) == Announce(files, clock, tick, timeout)
  {
    hide Ready;
    if files != [] {
      var later := AnnounceLog(files[1..], clock, tick + 1, timeout);
      ProcessIsStep(files[1..], clock, tick + 1, timeout);
      assert ([Announced(files[0].path, clock(tick))] + later)[1..] == later && [] + later == later;
    }
  }

  function Deliveries(events: seq<Event>): seq<Step> {
    if events == [] then [] else [Deliver(events[0].mask, events[0].name)] + Deliveries(events[1..])
  }

  /** What `ParseEvents` makes of a buffer is what its events do as steps of a run. */
  lemma {:induction false} ParseIsSteps(m: Monitor, events: seq<Event>, clock: nat -> int, timeout: int)
    ensures var r := After(m, Deliveries(events), clock, timeout);
            r.files == HandleAll(m.files, events, clock, m.tick) && r.tick == m.tick + |events|
    decreases |events|
  {
    hide Handle;
    if events != [] {
      var step := Deliver(events[0].mask, events[0].name);
      ParseIsSteps(Next(m, step, clock, timeout), events[1..], clock, timeout);
      assert ([step] + Deliveries(events[1..]))[1..] == Deliveries(events[1..]);
    }
  }

  // ---------- At most one announcement per creation ----------

  predicate Creation(o: Obs, path: Path) { o.Seen? && o.path == path && IsCreate(o.mask) && !IsIgnored(o.mask) }

  function Creations(log: seq<Obs>, path: Path): nat {
    if log == [] then 0 else (if Creation(log[0], path) then 1 else 0) + Creations(log[1..], path)
  }

  function Announcements(log: seq<Obs>, path: Path): nat {
    if log == [] then 0
    else (if log[0].Announced? && log[0].path == path then 1 else 0) + Announcements(log[1..], path)
  }

  /** Files with this path still to be announced. */
  function Pending(files: seq<WatchedFile>, path: Path): nat {
    if files == [] then 0
    else (if files[0].path == path && !files[0].consumed then 1 else 0) + Pending(files[1..], path)
  }

  lemma {:induction false} CountsConcat(a: seq<Obs>, b: seq<Obs>, path: Path)
    ensures Creations(a + b, path) == Creations(a, path) + Creations(b, path)
    ensures Announcements(a + b, path) == Announcements(a, path) + Announcements(b, path)
  {
    if a == [] {
      assert a + b == b;
    } else {
      assert (a + b)[1..] == a[1..] + b;
      CountsConcat(a[1..], b, path);
    }
  }

  /** With `CountsConcat`, what is counted. */
  lemma CountsOne(o: Obs, path: Path)
    ensures Creations([], path) == Announcements([], path) == 0
    ensures Creations([o], path) ==
            if o.Seen? && o.path == path && o.mask % 0x200 >= 0x100 && o.mask % 0x1_0000 < 0x8000 then 1 else 0
    ensures Announcements([o], path) == if o.Announced? && o.path == path then 1 else 0
  {
    assert [o][1..] == [];
    if o.Seen? {
      MaskBits(o.mask);
    }
  }

  lemma {:induction false} PendingConcat(a: seq<WatchedFile>, b: seq<WatchedFile>, path: Path)
    ensures Pending(a + b, path) == Pending(a, path) + Pending(b, path)
  {
    if a == [] {
      assert a + b == b;
    } else {
      assert (a + b)[1..] == a[1..] + b;
      PendingConcat(a[1..], b, path);
    }
  }

  /** Taking an entry out, or putting another in its place. */
  lemma {:induction false} PendingAt(files: seq<WatchedFile>, i: nat, f: WatchedFile, p: Path)
    requires i < |files|
    ensures Pending(files[..i] + files[i + 1..], p) == Pending(files, p) - Pending([files[i]], p)
    ensures Pending(files[i := f], p) == Pending(files, p) - Pending([files[i]], p) + Pending([f], p)
  {
    hide Pending;
    var a, b := files[..i], files[i + 1..];
    assert files == a + [files[i]] + b && files[i := f] == a + [f] + b;
    PendingConcat(a, b, p);
    PendingConcat(a, [files[i]], p);
    PendingConcat(a + [files[i]], b, p);
    PendingConcat(a, [f], p);
    PendingConcat(a + [f], b, p);
  }

  lemma HandleCounts(files: seq<WatchedFile>, mask: U32, path: Path, now: int, p: Path)
    ensures Pending(Handle(files, mask, path, now), p) <=
            Pending(files, p) + if IsCreate(mask) && !IsIgnored(mask) && path == p then 1 else 0
  {
    var i := IndexOf(files, path);
    PendingConcat(files, [WatchedFile(path, false, false, now)], p);
    if i < |files| {
      PendingAt(files, i, StateChange(files[i], mask, now), p);
    }
  }

  lemma {:induction false} ProcessCounts(files: seq<WatchedFile>, clock: nat -> int, tick: nat, timeout: int, p: Path)
    ensures Announcements(AnnounceLog(files, clock, tick, timeout), p)
            + Pending(MarkConsumed(files, clock, tick, timeout), p) == Pending(files, p)
    ensures Creations(AnnounceLog(files, clock, tick, timeout), p) == 0
  {
    if files != [] {
      ProcessCounts(files[1..], clock, tick + 1, timeout, p);
      var more := AnnounceLog(files[1..], clock, tick + 1, timeout);
      var o := Announced(files[0].path, clock(tick));
      assert ([o] + more)[1..] == more && [] + more == more;
    }
  }

  /** In every run a path is announced at most once for each time it was created. */
  lemma {:induction false} OnePerCreation(m: Monitor, run: seq<Step>, clock: nat -> int, timeout: int, p: Path)
    requires Announcements(m.log, p) + Pending(m.files, p) <= Creations(m.log, p)
    ensures var r := After(m, run, clock, timeout);
            Announcements(r.log, p) + Pending(r.files, p) <= Creations(r.log, p)
    decreases |run|
  {
    if run != [] {
      match run[0] {
        case Deliver(mask, path) =>
          HandleCounts(m.files, mask, path, clock(m.tick), p);
          CountsConcat(m.log, [Seen(mask, path, clock(m.tick))], p);
        case Process =>
          ProcessCounts(m.files, clock, m.tick, timeout, p);
          CountsConcat(m.log, AnnounceLog(m.files, clock, m.tick, timeout), p);
      }
      OnePerCreation(Next(m, run[0], clock, timeout), run[1..], clock, timeout, p);
    }
  }

  // ---------- Announced only when closed and idle ----------

  /** What the events say about a path: whether its last open or close since its creation was an open, and when
      it was last touched. */
  datatype PathState = PathState(inUse: bool, touched: int)

  function StateOf(log: seq<Obs>, path: Path): Option<PathState> {
    if log == [] then None
    else
      var before, o := StateOf(log[..|log| - 1], path), log[|log| - 1];
      if o.Announced? || o.path != path || IsIgnored(o.mask) then before
      else if IsCreate(o.mask) then Some(PathState(false, o.at))
      else if IsDelete(o.mask) || before.None? then None
      else Some(PathState(if IsOpen(o.mask) then true else if IsClose(o.mask) then false else before.value.inUse, o.at))
  }

  // Independently of the recursion: the events about a path, read from the end.

  /** An event about this path that is acted on. */
  predicate About(o: Obs, path: Path) { o.Seen? && o.path == path && !IsIgnored(o.mask) }

  predicate Deletion(o: Obs, path: Path) { About(o, path) && !IsCreate(o.mask) && IsDelete(o.mask) }

  predicate Opening(o: Obs, path: Path) {
    About(o, path) && !IsCreate(o.mask) && !IsDelete(o.mask) && IsOpen(o.mask)
  }

  predicate Closing(o: Obs, path: Path) {
    About(o, path) && !IsCreate(o.mask) && !IsDelete(o.mask) && !IsOpen(o.mask) && IsClose(o.mask)
  }

  /** Created, and not deleted since. */
  predicate Tracked(log: seq<Obs>, path: Path) {
    exists j | 0 <= j < |log| && Creation(log[j], path) :: forall k | j < k < |log| :: !Deletion(log[k], path)
  }

  /** The last event about the path came at this time. */
  predicate TouchedAt(log: seq<Obs>, path: Path, at: int) {
    exists j | 0 <= j < |log| && About(log[j], path) ::
      log[j].at == at && forall k | j < k < |log| :: !About(log[k], path)
  }

  /** Opened, and neither closed nor created anew since. */
  predicate OpenedLast(log: seq<Obs>, path: Path) {
    exists j | 0 <= j < |log| && Opening(log[j], path) ::
      forall k | j < k < |log| :: !Creation(log[k], path) && !Closing(log[k], path)
  }

  lemma {:induction false} TrackKept(log: seq<Obs>, path: Path)
    requires log != []
    ensures var o := log[|log| - 1];
            Tracked(log, path) <==> Creation(o, path) || (Tracked(log[..|log| - 1], path) && !Deletion(o, path))
  {
    hide Creation, Deletion;
    var n := |log| - 1;
    var before := log[..n];
    if j :| 0 <= j < n && Creation(before[j], path) && forall k | j < k < n :: !Deletion(before[k], path) {
      assert Creation(log[j], path) && forall k | j < k < n :: log[k] == before[k];
    }
    if j :| 0 <= j < |log| && Creation(log[j], path) && forall k | j < k < |log| :: !Deletion(log[k], path) {
      if j < n {
        assert Creation(before[j], path) && forall k | j < k < n :: before[k] == log[k];
      }
    }
  }

  lemma {:induction false} TouchKept(log: seq<Obs>, path: Path, at: int)
    requires log != []
    requires var o := log[|log| - 1]; if About(o, path) then o.at == at else TouchedAt(log[..|log| - 1], path, at)
    ensures TouchedAt(log, path, at)
  {
    hide About;
    var n := |log| - 1;
    var before := log[..n];
    if !About(log[n], path) {
      var j :| 0 <= j < n && About(before[j], path) && before[j].at == at
               && forall k | j < k < n :: !About(before[k], path);
      assert About(log[j], path) && forall k | j < k < n :: log[k] == before[k];
    }
  }

  lemma {:induction false} UseKept(log: seq<Obs>, path: Path)
    requires log != []
    ensures var o := log[|log| - 1];
            OpenedLast(log, path) <==>
            Opening(o, path) || (OpenedLast(log[..|log| - 1], path) && !Creation(o, path) && !Closing(o, path))
  {
    hide Creation, Closing, Opening;
    var n := |log| - 1;
    var before := log[..n];
    if j :| 0 <= j < n && Opening(before[j], path)
            && forall k | j < k < n :: !Creation(before[k], path) && !Closing(before[k], path) {
      assert Opening(log[j], path) && forall k | j < k < n :: log[k] == before[k];
    }
    if j :| 0 <= j < |log| && Opening(log[j], path)
            && forall k | j < k < |log| :: !Creation(log[k], path) && !Closing(log[k], path) {
      if j < n {
        assert Opening(before[j], path) && forall k | j < k < n :: before[k] == log[k];
      }
    }
  }

  lemma {:induction false} StateFacts(log: seq<Obs>, path: Path)
    ensures StateOf(log, path).Some? <==> Tracked(log, path)
    ensures StateOf(log, path).Some? ==>
              && TouchedAt(log, path, StateOf(log, path).value.touched)
              && (StateOf(log, path).value.inUse <==> OpenedLast(log, path))
    decreases |log|
  {
    hide IsCreate, IsDelete, IsOpen, IsClose, IsIgnored;
    if log != [] {
      hide Tracked, TouchedAt, OpenedLast, StateOf;
      var n := |log| - 1;
      var before, o := log[..n], log[n];
      assert log == before + [o];
      StateFacts(before, path);
      StateSnoc(before, o, path);
      TrackKept(log, path);
      UseKept(log, path);
      if StateOf(log, path).Some? {
        TouchKept(log, path, StateOf(log, path).value.touched);
      }
    }
  }

  /** A path has a state exactly if it was created and not deleted since. */
  lemma TrackedIff(log: seq<Obs>, path: Path)
    ensures StateOf(log, path).Some? <==>
            exists j | 0 <= j < |log| && Creation(log[j], path) :: forall k | j < k < |log| :: !Deletion(log[k], path)
  {
    StateFacts(log, path);
  }

  /** Then it was touched by the last event about it, and is in use exactly if it was opened and neither closed nor
      created anew since. */
  lemma StateIs(log: seq<Obs>, path: Path)
    requires StateOf(log, path).Some?
    ensures exists j | 0 <= j < |log| && About(log[j], path) ::
              log[j].at == StateOf(log, path).value.touched && forall k | j < k < |log| :: !About(log[k], path)
    ensures StateOf(log, path).value.inUse <==>
            exists j | 0 <= j < |log| && Opening(log[j], path) ::
              forall k | j < k < |log| :: !Creation(log[k], path) && !Closing(log[k], path)
  {
    StateFacts(log, path);
  }

  predicate DistinctPaths(files: seq<WatchedFile>) {
    forall i, j | 0 <= i < j < |files| :: files[i].path != files[j].path
  }

  /** Each path listed once, and its entry agrees with the events about that path. */
  ghost predicate Agrees(files: seq<WatchedFile>, log: seq<Obs>) {
    && DistinctPaths(files)
    && (forall f | f in files :: StateOf(log, f.path) == Some(PathState(f.inUse, f.lastAccess)))
    && (forall p | StateOf(log, p).Some? :: exists i | 0 <= i < |files| :: files[i].path == p)
  }

  /** A path in this state may be announced: closed, and idle for longer than the timeout. */
  predicate Allowed(st: Option<PathState>, at: int, timeout: int) {
    st.Some? && !st.value.inUse && Millis(at - st.value.touched) > timeout
  }

  /** Every announcement so far was of a path that was closed and idle, judged by the events before it. */
  ghost predicate Justified(log: seq<Obs>, timeout: int) {
    forall j | 0 <= j < |log| && log[j].Announced? :: Allowed(StateOf(log[..j], log[j].path), log[j].at, timeout)
  }

  lemma StateSnoc(log: seq<Obs>, o: Obs, path: Path)
    ensures o.Announced? || o.path != path || IsIgnored(o.mask) ==> StateOf(log + [o], path) == StateOf(log, path)
    ensures o.Seen? && o.path == path && !IsIgnored(o.mask) ==>
              StateOf(log + [o], path) ==
              if IsCreate(o.mask) then Some(PathState(false, o.at))
              else if IsDelete(o.mask) || StateOf(log, path).None? then None
              else Some(PathState(if IsOpen(o.mask) then true else if IsClose(o.mask) then false
                                  else StateOf(log, path).value.inUse, o.at))
  {
  }

  lemma {:induction false} HandleAgrees(files: seq<WatchedFile>, log: seq<Obs>, mask: U32, path: Path, now: int)
    requires Agrees(files, log)
    requires IsCreate(mask) && !IsIgnored(mask) ==> IndexOf(files, path) == |files|
    ensures Agrees(Handle(files, mask, path, now), log + [Seen(mask, path, now)])
  {
    hide StateOf;
    var log', files' := log + [Seen(mask, path, now)], Handle(files, mask, path, now);
    var i := IndexOf(files, path);
    forall p ensures p != path || IsIgnored(mask) ==> StateOf(log', p) == StateOf(log, p) {
      StateSnoc(log, Seen(mask, path, now), p);
    }
    StateSnoc(log, Seen(mask, path, now), path);
    if IsIgnored(mask) {
    } else if IsCreate(mask) {
      assert files'[|files|].path == path;
      forall p | StateOf(log', p).Some? ensures exists k | 0 <= k < |files'| :: files'[k].path == p {
        if p != path {
          var k :| 0 <= k < |files| && files[k].path == p;
          assert files'[k].path == p;
        }
      }
    } else if i == |files| {
      assert StateOf(log, path).None?;
    } else if IsDelete(mask) {
      DeleteAgrees(files, log, log', path);
    } else {
      assert files[i] in files;
      forall p | StateOf(log', p).Some? ensures exists k | 0 <= k < |files'| :: files'[k].path == p {
        assert StateOf(log, p).Some?;
        var k :| 0 <= k < |files| && files[k].path == p;
        assert files'[k].path == p;
      }
    }
  }

  lemma {:induction false} DeleteAgrees(files: seq<WatchedFile>, log: seq<Obs>, log': seq<Obs>, path: Path)
    requires Agrees(files, log) && IndexOf(files, path) < |files|
    requires StateOf(log', path).None? && forall p | p != path :: StateOf(log', p) == StateOf(log, p)
    ensures var i := IndexOf(files, path); Agrees(files[..i] + files[i + 1..], log')
  {
    hide StateOf, Agrees;
    var i := IndexOf(files, path);
    var files' := files[..i] + files[i + 1..];
    DistinctWithout(files, i, log);
    forall f | f in files' ensures StateOf(log', f.path) == Some(PathState(f.inUse, f.lastAccess)) {
      assert f in files && f.path != path;
      EntryAgrees(files, log, f);
    }
    forall p | StateOf(log', p).Some? ensures exists k | 0 <= k < |files'| :: files'[k].path == p {
      var k := EntryExists(files, log, p);
      assert files'[if k < i then k else k - 1] == files[k];
    }
    AgreesFrom(files', log');
  }

  lemma DistinctWithout(files: seq<WatchedFile>, i: nat, log: seq<Obs>)
    requires Agrees(files, log) && i < |files|
    ensures var files' := files[..i] + files[i + 1..];
            DistinctPaths(files') && forall f | f in files' :: f in files && f.path != files[i].path
  {
  }

  lemma EntryAgrees(files: seq<WatchedFile>, log: seq<Obs>, f: WatchedFile)
    requires Agrees(files, log) && f in files
    ensures StateOf(log, f.path) == Some(PathState(f.inUse, f.lastAccess))
  {
  }

  lemma EntryExists(files: seq<WatchedFile>, log: seq<Obs>, p: Path) returns (k: nat)
    requires Agrees(files, log) && StateOf(log, p).Some?
    ensures k < |files| && files[k].path == p
  {
    k :| 0 <= k < |files| && files[k].path == p;
  }

  lemma AgreesFrom(files: seq<WatchedFile>, log: seq<Obs>)
    requires DistinctPaths(files)
    requires forall f | f in files :: StateOf(log, f.path) == Some(PathState(f.inUse, f.lastAccess))
    requires forall p | StateOf(log, p).Some? :: exists i | 0 <= i < |files| :: files[i].path == p
    ensures Agrees(files, log)
  {
  }

  lemma {:induction false} AnnouncedOnly(log: seq<Obs>, more: seq<Obs>, path: Path)
    requires forall o | o in more :: o.Announced?
    ensures StateOf(log + more, path) == StateOf(log, path)
    decreases |more|
  {
    if more == [] {
      assert log + more == log;
    } else {
      var n := |more| - 1;
      assert log + more == (log + more[..n]) + [more[n]];
      AnnouncedOnly(log, more[..n], path);
      StateSnoc(log + more[..n], more[n], path);
    }
  }

  /** When its turn comes in one `Process`, the `i`-th file is announced, by this entry of the log. */
  predicate Announces(files: seq<WatchedFile>, clock: nat -> int, tick: nat, timeout: int, i: nat, o: Obs) {
    i < |files| && Ready(files[i], clock(tick + i), timeout) && o == Announced(files[i].path, clock(tick + i))
  }

  lemma {:induction false} AnnouncedIff(files: seq<WatchedFile>, clock: nat -> int, tick: nat, timeout: int, o: Obs)
    ensures o in AnnounceLog(files, clock, tick, timeout) <==>
            exists i: nat :: Announces(files, clock, tick, timeout, i, o)
  {
    hide Ready;
    if files != [] {
      var tail, next := files[1..], tick + 1;
      AnnouncedIff(tail, clock, next, timeout, o);
      if i: nat :| Announces(tail, clock, next, timeout, i, o) {
        assert Announces(files, clock, tick, timeout, i + 1, o);
      }
      if i: nat :| Announces(files, clock, tick, timeout, i, o) {
        if i > 0 {
          assert Announces(tail, clock, next, timeout, i - 1, o);
        }
      }
      assert Ready(files[0], clock(tick), timeout) && o == Announced(files[0].path, clock(tick)) ==>
               Announces(files, clock, tick, timeout, 0, o);
    }
  }

  /** The announcements of one `Process` are those of the files that are ready when their turn comes. */
  lemma {:induction false} AnnounceSpec(files: seq<WatchedFile>, clock: nat -> int, tick: nat, timeout: int)
    ensures forall o :: o in AnnounceLog(files, clock, tick, timeout) <==>
            exists i: nat :: Announces(files, clock, tick, timeout, i, o)
  {
    hide AnnounceLog, Announces;
    forall o
      ensures o in AnnounceLog(files, clock, tick, timeout) <==>
              exists i: nat :: Announces(files, clock, tick, timeout, i, o)
    {
      AnnouncedIff(files, clock, tick, timeout, o);
    }
  }

  /** Marking changes nothing but the mark. */
  lemma {:induction false} MarkSpec(files: seq<WatchedFile>, clock: nat -> int, tick: nat, timeout: int)
    ensures forall i | 0 <= i < |files| ::
              MarkConsumed(files, clock, tick, timeout)[i] ==
              files[i].(consumed := files[i].consumed || Ready(files[i], clock(tick + i), timeout))
  {
    hide Ready;
    if files != [] {
      MarkSpec(files[1..], clock, tick + 1, timeout);
    }
  }

  /** A `Process` announces only what may be announced exactly when every listed file that is ready has a path that
      may be; whether the events about a path reached all its listings does not matter otherwise. */
  lemma ProcessJustifiedIff(m: Monitor, clock: nat -> int, timeout: int)
    requires Justified(m.log, timeout)
    ensures Justified(Next(m, Process, clock, timeout).log, timeout) <==>
            forall i | 0 <= i < |m.files| && Ready(m.files[i], clock(m.tick + i), timeout) ::
              Allowed(StateOf(m.log, m.files[i].path), clock(m.tick + i), timeout)
  {
    if i :| 0 <= i < |m.files| && Ready(m.files[i], clock(m.tick + i), timeout)
            && !Allowed(StateOf(m.log, m.files[i].path), clock(m.tick + i), timeout) {
      UnjustifiedProcess(m, clock, timeout, i);
    } else {
      JustifiedProcess(m, clock, timeout);
    }
  }

  lemma {:induction false} UnjustifiedProcess(m: Monitor, clock: nat -> int, timeout: int, i: nat)
    requires i < |m.files| && Ready(m.files[i], clock(m.tick + i), timeout)
    requires !Allowed(StateOf(m.log, m.files[i].path), clock(m.tick + i), timeout)
    ensures !Justified(Next(m, Process, clock, timeout).log, timeout)
  {
    hide StateOf, AnnounceLog, MarkConsumed, Ready, Allowed;
    var more := AnnounceLog(m.files, clock, m.tick, timeout);
    var r, o := Next(m, Process, clock, timeout), Announced(m.files[i].path, clock(m.tick + i));
    AnnounceSpec(m.files, clock, m.tick, timeout);
    assert Announces(m.files, clock, m.tick, timeout, i, o);
    assert o in more;
    var k :| 0 <= k < |more| && more[k] == o;
    AllAnnounced(m, clock, timeout, k);
    assert r.log[|m.log| + k] == o && r.log[..|m.log| + k] == m.log + more[..k];
  }

  lemma {:induction false} JustifiedProcess(m: Monitor, clock: nat -> int, timeout: int)
    requires Justified(m.log, timeout)
    requires forall i | 0 <= i < |m.files| && Ready(m.files[i], clock(m.tick + i), timeout) ::
               Allowed(StateOf(m.log, m.files[i].path), clock(m.tick + i), timeout)
    ensures Justified(Next(m, Process, clock, timeout).log, timeout)
  {
    hide StateOf, AnnounceLog, MarkConsumed, Ready, Allowed;
    var more := AnnounceLog(m.files, clock, m.tick, timeout);
    var r := Next(m, Process, clock, timeout);
    AnnounceSpec(m.files, clock, m.tick, timeout);
    forall j | 0 <= j < |r.log| && r.log[j].Announced?
      ensures Allowed(StateOf(r.log[..j], r.log[j].path), r.log[j].at, timeout)
    {
      if j < |m.log| {
        assert r.log[..j] == m.log[..j];
      } else {
        var k := j - |m.log|;
        assert r.log[j] == more[k] && more[k] in more && r.log[..j] == m.log + more[..k];
        AllAnnounced(m, clock, timeout, k);
        var i: nat :| Announces(m.files, clock, m.tick, timeout, i, more[k]);
      }
    }
  }

  /** While one `Process` announces, what the events say of a path stays as it was. */
  lemma {:induction false} AllAnnounced(m: Monitor, clock: nat -> int, timeout: int, k: nat)
    requires k <= |AnnounceLog(m.files, clock, m.tick, timeout)|
    ensures forall p :: StateOf(m.log + AnnounceLog(m.files, clock, m.tick, timeout)[..k], p) == StateOf(m.log, p)
  {
    hide StateOf, AnnounceLog, Ready;
    var more := AnnounceLog(m.files, clock, m.tick, timeout);
    AnnounceSpec(m.files, clock, m.tick, timeout);
    forall p ensures StateOf(m.log + more[..k], p) == StateOf(m.log, p) {
      assert forall o | o in more[..k] :: o in more;
      AnnouncedOnly(m.log, more[..k], p);
    }
  }

  lemma {:induction false} ProcessAgrees(m: Monitor, clock: nat -> int, timeout: int)
    requires Agrees(m.files, m.log) && Justified(m.log, timeout)
    ensures var r := Next(m, Process, clock, timeout); Agrees(r.files, r.log) && Justified(r.log, timeout)
  {
    hide StateOf, AnnounceLog, MarkConsumed;
    var more := AnnounceLog(m.files, clock, m.tick, timeout);
    var r := Next(m, Process, clock, timeout);
    MarkSpec(m.files, clock, m.tick, timeout);
    AllAnnounced(m, clock, timeout, |more|);
    assert more[..|more|] == more;
    forall i | 0 <= i < |m.files|
      ensures StateOf(m.log, m.files[i].path) == Some(PathState(m.files[i].inUse, m.files[i].lastAccess))
    {
      assert m.files[i] in m.files;
    }
    forall f | f in r.files ensures StateOf(r.log, f.path) == Some(PathState(f.inUse, f.lastAccess)) {
      var i :| 0 <= i < |r.files| && r.files[i] == f;
    }
    forall p | StateOf(r.log, p).Some? ensures exists i | 0 <= i < |r.files| :: r.files[i].path == p {
      var i :| 0 <= i < |m.files| && m.files[i].path == p;
      assert r.files[i].path == p;
    }
    JustifiedProcess(m, clock, timeout);
  }

  lemma {:induction false} JustifiedSnoc(log: seq<Obs>, o: Obs, timeout: int)
    requires Justified(log, timeout) && o.Seen?
    ensures Justified(log + [o], timeout)
  {
    hide StateOf;
    assert forall j | 0 <= j < |log| :: (log + [o])[..j] == log[..j];
  }

  // ---------- Runs that never create a path still watched ----------

  /** The listed paths, in order. */
  function PathsOf(files: seq<WatchedFile>): (paths: seq<Path>)
    ensures |paths| == |files| && forall i | 0 <= i < |files| :: paths[i] == files[i].path
  {
    seq(|files|, i requires 0 <= i < |files| => files[i].path)
  }

  function FirstAt(paths: seq<Path>, path: Path): (i: nat)
    ensures i <= |paths| && (i < |paths| ==> paths[i] == path)
    ensures forall k | 0 <= k < i :: paths[k] != path
  {
    if paths == [] || paths[0] == path then 0 else 1 + FirstAt(paths[1..], path)
  }

  function DropFirst(paths: seq<Path>, path: Path): seq<Path> {
    var i := FirstAt(paths, path);
    if i == |paths| then paths else paths[..i] + paths[i + 1..]
  }

  /** What a step does to the listed paths; it does not depend on the clock. */
  function Watch(paths: seq<Path>, step: Step): seq<Path> {
    if step.Process? || IsIgnored(step.mask) then paths
    else if IsCreate(step.mask) then paths + [step.path]
    else if IsDelete(step.mask) then DropFirst(paths, step.path)
    else paths
  }

  /** The creation of a path that is listed already. */
  predicate Repeats(paths: seq<Path>, step: Step) {
    step.Deliver? && IsCreate(step.mask) && !IsIgnored(step.mask) && step.path in paths
  }

  predicate Clean(paths: seq<Path>, run: seq<Step>)
    decreases |run|
  {
    run != [] ==> !Repeats(paths, run[0]) && Clean(Watch(paths, run[0]), run[1..])
  }

  lemma {:induction false} SameFirst(files: seq<WatchedFile>, path: Path)
    ensures FirstAt(PathsOf(files), path) == IndexOf(files, path)
    ensures IndexOf(files, path) == |files| <==> path !in PathsOf(files)
  {
    var paths, i := PathsOf(files), IndexOf(files, path);
    assert i < |files| ==> paths[i] == path;
    assert forall k | 0 <= k < i :: paths[k] == files[k].path != path;
  }

  lemma {:induction false} NextWatches(m: Monitor, step: Step, clock: nat -> int, timeout: int)
    ensures PathsOf(Next(m, step, clock, timeout).files) == Watch(PathsOf(m.files), step)
  {
    hide IndexOf, FirstAt;
    match step {
      case Deliver(mask, path) => HandleWatches(m.files, mask, path, clock(m.tick));
      case Process => MarkSpec(m.files, clock, m.tick, timeout);
    }
  }

  lemma {:induction false} HandleWatches(files: seq<WatchedFile>, mask: U32, path: Path, now: int)
    ensures PathsOf(Handle(files, mask, path, now)) == Watch(PathsOf(files), Deliver(mask, path))
  {
    var i, r, w := IndexOf(files, path), PathsOf(Handle(files, mask, path, now)),
        Watch(PathsOf(files), Deliver(mask, path));
    SameFirst(files, path);
    assert |r| == |w|;
    assert forall k | 0 <= k < |r| :: r[k] == w[k];
  }

  /** In every run that never creates a path still watched, each path is announced only when its last open or
      close was not an open and it has been left alone for longer than the timeout. */
  lemma {:induction false} AnnouncedOnlyWhenReady(m: Monitor, run: seq<Step>, clock: nat -> int, timeout: int)
    requires Agrees(m.files, m.log) && Justified(m.log, timeout) && Clean(PathsOf(m.files), run)
    ensures var r := After(m, run, clock, timeout); Agrees(r.files, r.log) && Justified(r.log, timeout)
    decreases |run|
  {
    hide Agrees, Justified;
    if run != [] {
      NextWatches(m, run[0], clock, timeout);
      match run[0] {
        case Deliver(mask, path) =>
          SameFirst(m.files, path);
          HandleAgrees(m.files, m.log, mask, path, clock(m.tick));
          JustifiedSnoc(m.log, Seen(mask, path, clock(m.tick)), timeout);
        case Process => ProcessAgrees(m, clock, timeout);
      }
      AnnouncedOnlyWhenReady(Next(m, run[0], clock, timeout), run[1..], clock, timeout);
    }
  }

  /** From the empty monitor, both results together. */
  lemma EveryRunAnnouncesRightly(run: seq<Step>, clock: nat -> int, timeout: int, p: Path)
    ensures var r := After(INIT, run, clock, timeout); Announcements(r.log, p) <= Creations(r.log, p)
    ensures Clean([], run) ==> Justified(After(INIT, run, clock, timeout).log, timeout)
  {
    OnePerCreation(INIT, run, clock, timeout, p);
    if Clean([], run) {
      AnnouncedOnlyWhenReady(INIT, run, clock, timeout);
    }
  }

  // ---------- And only those ----------

  ghost predicate Monotone(clock: nat -> int) { forall i: nat, j: nat | i <= j :: clock(i) <= clock(j) }

  /** On every monotone clock and at every point of the run, whatever comes next that repeats no creation, all
      announcements are of paths that may be announced. */
  ghost predicate StaysJustified(m: Monitor, run: seq<Step>, timeout: int) {
    forall clock: nat -> int, k: nat, more: seq<Step> |
      Monotone(clock) && k <= |run| && Clean(PathsOf(After(m, run[..k], clock, timeout).files), more) ::
      Justified(After(m, run[..k] + more, clock, timeout).log, timeout)
  }

  /** From a state that agrees with its log, a run and all that can follow it announce only closed and idle paths
      exactly when the run never creates a path that is still listed, which the branch for creations could check. */
  lemma JustifiedIffClean(m: Monitor, run: seq<Step>, timeout: int)
    requires Agrees(m.files, m.log) && Justified(m.log, timeout)
    ensures Clean(PathsOf(m.files), run) <==> StaysJustified(m, run, timeout)
  {
    if Clean(PathsOf(m.files), run) {
      forall clock: nat -> int, k: nat, more: seq<Step> |
        Monotone(clock) && k <= |run| && Clean(PathsOf(After(m, run[..k], clock, timeout).files), more)
        ensures Justified(After(m, run[..k] + more, clock, timeout).log, timeout)
      {
        CleanJoins(m, run, k, more, clock, timeout);
        AnnouncedOnlyWhenReady(m, run[..k] + more, clock, timeout);
      }
    } else {
      var k, more := RepetitionBreaks(m, run, timeout);
      TickingMonotone(timeout);
    }
  }

  lemma {:induction false} CleanJoins(m: Monitor, run: seq<Step>, k: nat, more: seq<Step>, clock: nat -> int,
      timeout: int)
    requires k <= |run| && Clean(PathsOf(m.files), run)
    requires Clean(PathsOf(After(m, run[..k], clock, timeout).files), more)
    ensures Clean(PathsOf(m.files), run[..k] + more)
    decreases k
  {
    hide Next, PathsOf, Watch;
    if k == 0 {
      assert run[..0] + more == more;
    } else {
      NextWatches(m, run[0], clock, timeout);
      assert run[..k][1..] == run[1..][..k - 1] && (run[..k] + more)[1..] == run[1..][..k - 1] + more;
      CleanJoins(Next(m, run[0], clock, timeout), run[1..], k - 1, more, clock, timeout);
    }
  }

  /** A clock on which more than the timeout passes from each reading to the next. */
  function Ticking(timeout: int): nat -> int { t => t * Gap(timeout) }

  function Gap(timeout: int): (gap: nat)
    ensures Millis(gap) > timeout
  {
    if timeout < 0 then 0 else (timeout + 1) * 1_000_000
  }

  lemma TickingPasses(timeout: int, i: nat, j: nat)
    requires i < j
    ensures Millis(Ticking(timeout)(j) - Ticking(timeout)(i)) > timeout
  {
    Passes(Gap(timeout), timeout, j - i);
    assert j * Gap(timeout) - i * Gap(timeout) == (j - i) * Gap(timeout);
  }

  lemma {:induction false} Passes(gap: nat, timeout: int, n: nat)
    requires Millis(gap) > timeout && n > 0
    ensures Millis(n * gap) > timeout
  {
    assert n * gap == gap + (n - 1) * gap;
    assert (n - 1) * gap >= 0;
  }

  lemma TickingMonotone(timeout: int)
    ensures Monotone(Ticking(timeout))
  {
    forall i: nat, j: nat | i <= j ensures Ticking(timeout)(i) <= Ticking(timeout)(j) {
      assert j * Gap(timeout) - i * Gap(timeout) == (j - i) * Gap(timeout) >= 0;
    }
  }

  /** The first repeated creation, followed by an open and a `Process`, announces a path while it is open. */
  lemma {:induction false} RepetitionBreaks(m: Monitor, run: seq<Step>, timeout: int) returns (k: nat, more: seq<Step>)
    requires !Clean(PathsOf(m.files), run)
    ensures k <= |run| && Clean(PathsOf(After(m, run[..k], Ticking(timeout), timeout).files), more)
    ensures !Justified(After(m, run[..k] + more, Ticking(timeout), timeout).log, timeout)
    decreases |run|
  {
    hide Justified, Next, PathsOf, Watch, Ticking;
    var m' := Next(m, run[0], Ticking(timeout), timeout);
    if Repeats(PathsOf(m.files), run[0]) {
      k, more := 1, [Deliver(0x20, run[0].path), Process];
      assert run[..1] + more == [run[0]] + more && ([run[0]] + more)[1..] == more;
      OpenBehindRepetition(m, run[0].mask, run[0].path, timeout);
      assert more[1..] == [Process] && [Process][1..] == [];
    } else {
      NextWatches(m, run[0], Ticking(timeout), timeout);
      k, more := RepetitionBreaks(m', run[1..], timeout);
      k := k + 1;
      assert run[..k][1..] == run[1..][..k - 1] && (run[..k] + more)[1..] == run[1..][..k - 1] + more;
    }
  }

  lemma {:induction false} OpenBehindRepetition(m: Monitor, mask: U32, p: Path, timeout: int)
    requires Repeats(PathsOf(m.files), Deliver(mask, p))
    ensures var clock := Ticking(timeout);
            var m1 := Next(m, Deliver(mask, p), clock, timeout);
            !Justified(After(m1, [Deliver(0x20, p), Process], clock, timeout).log, timeout)
  {
    hide StateOf, Justified, AnnounceLog, MarkConsumed, Ticking;
    var clock, last := Ticking(timeout), |m.files|;
    var m1 := Next(m, Deliver(mask, p), clock, timeout);
    SameFirst(m.files, p);
    IndexOfSnoc(m.files, m1.files[last], p);
    StateSnoc(m.log, Seen(mask, p, clock(m.tick)), p);
    var m2 := Next(m1, Deliver(0x20, p), clock, timeout);
    StateSnoc(m1.log, Seen(0x20, p, clock(m1.tick)), p);
    assert m2.files[last] == WatchedFile(p, false, false, clock(m.tick)) && StateOf(m2.log, p).value.inUse;
    TickingPasses(timeout, m.tick, m2.tick + last);
    UnjustifiedProcess(m2, clock, timeout, last);
    assert [Deliver(0x20, p), Process][1..] == [Process] && [Process][1..] == [];
    assert After(m2, [Process], clock, timeout) == Next(m2, Process, clock, timeout);
  }

  lemma {:induction false} IndexOfSnoc(files: seq<WatchedFile>, f: WatchedFile, p: Path)
    requires IndexOf(files, p) < |files|
    ensures IndexOf(files + [f], p) == IndexOf(files, p)
  {
    if files[0].path != p {
      assert (files + [f])[1..] == files[1..] + [f];
      IndexOfSnoc(files[1..], f, p);
    }
  }

  // ---------- Paths listed twice ----------

  /** The `i`-th file has this path and is ready when its turn comes. */
  predicate ReadyAt(files: seq<WatchedFile>, clock: nat -> int, tick: nat, timeout: int, i: nat, p: Path) {
    i < |files| && files[i].path == p && Ready(files[i], clock(tick + i), timeout)
  }

  lemma {:induction false} AnnouncedIffReady(files: seq<WatchedFile>, clock: nat -> int, tick: nat, timeout: int,
      p: Path)
    ensures p in Announce(files, clock, tick, timeout) <==>
            exists i: nat | i < |files| :: files[i].path == p && Ready(files[i], clock(tick + i), timeout)
  {
    hide Announce, Ready;
    AnnouncedIffReadyAt(files, clock, tick, timeout, p);
    if i: nat :| i < |files| && files[i].path == p && Ready(files[i], clock(tick + i), timeout) {
      assert ReadyAt(files, clock, tick, timeout, i, p);
    }
  }

  lemma {:induction false} AnnouncedIffReadyAt(files: seq<WatchedFile>, clock: nat -> int, tick: nat, timeout: int,
      p: Path)
    ensures p in Announce(files, clock, tick, timeout) <==> exists i: nat :: ReadyAt(files, clock, tick, timeout, i, p)
  {
    hide Ready;
    if files != [] {
      var tail, next := files[1..], tick + 1;
      AnnouncedIffReadyAt(tail, clock, next, timeout, p);
      if i: nat :| ReadyAt(tail, clock, next, timeout, i, p) {
        assert ReadyAt(files, clock, tick, timeout, i + 1, p);
      }
      if i: nat :| ReadyAt(files, clock, tick, timeout, i, p) {
        if i > 0 {
          assert ReadyAt(tail, clock, next, timeout, i - 1, p);
        }
      }
      assert files[0].path == p && Ready(files[0], clock(tick), timeout) ==> ReadyAt(files, clock, tick, timeout, 0, p);
    }
  }

  /** For example: created twice, opened, and announced while open. */
  lemma DoubleCreationBreaksIt(p: Path, clock: nat -> int, timeout: int)
    requires clock(0) == 0 && clock(1) == 0 && clock(2) == 0 && timeout >= 0
    requires clock(4) == (timeout + 1) * 1_000_000
    ensures var run := [Deliver(0x100, p), Deliver(0x100, p), Deliver(0x20, p), Process];
            !Justified(After(INIT, run, clock, timeout).log, timeout)
  {
    var run := [Deliver(0x100, p), Deliver(0x100, p), Deliver(0x20, p), Process];
    assert run[1..] == [Deliver(0x100, p), Deliver(0x20, p), Process];
    assert run[1..][1..] == [Deliver(0x20, p), Process] && [Deliver(0x20, p), Process][1..] == [Process];
    assert [Process][1..] == [];
    var m2 := CreatedTwice(p, clock, timeout);
    var m3, m4 := OpenedThenAnnounced(p, m2, clock, timeout);
    assert After(m3, [Process], clock, timeout) == m4;
    assert After(m2, [Deliver(0x20, p), Process], clock, timeout) == m4;
    var m1 := Next(INIT, Deliver(0x100, p), clock, timeout);
    assert After(m1, run[1..], clock, timeout) == m4;
  }

  lemma CreatedTwice(p: Path, clock: nat -> int, timeout: int) returns (m: Monitor)
    requires clock(0) == 0 && clock(1) == 0
    ensures m == Next(Next(INIT, Deliver(0x100, p), clock, timeout), Deliver(0x100, p), clock, timeout)
    ensures m.files == [WatchedFile(p, false, false, 0), WatchedFile(p, false, false, 0)] && m.tick == 2 && |m.log| == 2
    ensures StateOf(m.log, p) == Some(PathState(false, 0))
  {
    var c := WatchedFile(p, false, false, 0);
    var m1 := Next(INIT, Deliver(0x100, p), clock, timeout);
    assert m1 == Monitor([c], 1, [Seen(0x100, p, 0)]);
    m := Next(m1, Deliver(0x100, p), clock, timeout);
    assert m.files == [c, c];
    StateSnoc(m1.log, Seen(0x100, p, 0), p);
  }

  lemma OpenedThenAnnounced(p: Path, m2: Monitor, clock: nat -> int, timeout: int) returns (m3: Monitor, m4: Monitor)
    requires clock(2) == 0 && timeout >= 0 && clock(4) == (timeout + 1) * 1_000_000
    requires m2.files == [WatchedFile(p, false, false, 0), WatchedFile(p, false, false, 0)] && m2.tick == 2
             && |m2.log| == 2
    requires StateOf(m2.log, p) == Some(PathState(false, 0))
    ensures m3 == Next(m2, Deliver(0x20, p), clock, timeout) && m4 == Next(m3, Process, clock, timeout)
    ensures !Justified(m4.log, timeout)
  {
    var c, o := WatchedFile(p, false, false, 0), WatchedFile(p, false, true, 0);
    m3 := Next(m2, Deliver(0x20, p), clock, timeout);
    assert m3.files == [o, c] && m3.tick == 3;
    m4 := Next(m3, Process, clock, timeout);
    var t := clock(4);
    assert AnnounceLog([c], clock, 4, timeout) == [Announced(p, t)] + [];
    assert AnnounceLog(m3.files, clock, 3, timeout) == [] + [Announced(p, t)];
    assert m4.log[3] == Announced(p, t) && m4.log[..3] == m3.log;
    StateSnoc(m2.log, Seen(0x20, p, 0), p);
    assert StateOf(m3.log, p) == Some(PathState(true, 0));
  }
}
