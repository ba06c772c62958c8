/**
 Video frames on the wire: one printer and two parsers.  `DeserializeFrom` blocks; `AsyncDeserializeFrom` is a
 state machine that may be interrupted at any byte.  Both are proved against the pure `Decode`.
 */
module V4LFrame {
  import opened Common
  import opened Converter
  import DatFile

  // ---------- Frames as bytes ----------

  datatype Fields = Fields(
    timestamp: U64,
    name: seq<Byte>,
    width: U32,
    height: U32,
    bytesPerLine: U32,
    bitsPerPixel: Byte,
    colorFormat: Byte)

  datatype Decoded = Decoded(fields: Fields, body: seq<Byte>)

  /** The size fields sit in the first eight bytes; adding four wraps at 32 bits. */
  function FrameSize(b: seq<Byte>): nat
    requires |b| >= 8
  {
    GetU32(b, 0)
  }

  function HeaderSize(b: seq<Byte>): nat
    requires |b| >= 8
  {
    (GetU32(b, 4) + 4) % 0x1_0000_0000 + 16
  }

  /** `b` starts with a complete frame whose name and fixed fields lie inside its header. */
  predicate StartsWithFrame(b: seq<Byte>) {
    |b| >= 8 && 28 <= HeaderSize(b) <= FrameSize(b) <= |b| && b[10] < 128 && 28 + b[10] <= HeaderSize(b)
  }

  function ParseHeader(h: seq<Byte>): Fields
    requires |h| >= 28 && 28 + h[10] <= |h|
  {
    var video := |h| - 16;
    Fields(GetU64(h, 20), h[28..28 + h[10]], GetU32(h, video), GetU32(h, video + 4), GetU32(h, video + 8),
           h[video + 12], h[video + 13])
  }

  /** The frame at the front of `b`. */
  function Decode(b: seq<Byte>): Decoded
    requires StartsWithFrame(b)
  {
    Decoded(ParseHeader(b[..HeaderSize(b)]), b[HeaderSize(b)..FrameSize(b)])
  }

  /** Where everything is: sizes and name length in front, the timestamp at 20, the name at 28, the video fields in the
      last sixteen bytes of the header, and the body after it. */
  lemma {:induction false} DecodeIs(b: seq<Byte>)
    requires StartsWithFrame(b)
    ensures var n, h, d := GetU32(b, 0), (GetU32(b, 4) + 4) % 0x1_0000_0000 + 16, Decode(b);
            && 28 <= h <= n <= |b| && 28 + b[10] <= h
            && d.fields.timestamp == GetU64(b, 20) && d.fields.name == b[28..28 + b[10]]
            && d.fields.width == GetU32(b, h - 16) && d.fields.height == GetU32(b, h - 12)
            && d.fields.bytesPerLine == GetU32(b, h - 8)
            && d.fields.bitsPerPixel == b[h - 4] && d.fields.colorFormat == b[h - 3] && d.body == b[h..n]
  {
    hide Compose;
    var header := b[..HeaderSize(b)];
    assert header[28..28 + header[10]] == b[28..28 + b[10]];
  }

  /** Only the frame's own bytes matter. */
  lemma DecodeLocal(b: seq<Byte>, b': seq<Byte>)
    requires StartsWithFrame(b) && |b'| >= FrameSize(b) && b'[..FrameSize(b)] == b[..FrameSize(b)]
    ensures StartsWithFrame(b') && FrameSize(b') == FrameSize(b) && Decode(b') == Decode(b)
  {
    SameSizes(b, b');
    assert b'[10] == b'[..FrameSize(b)][10] == b[..FrameSize(b)][10] == b[10];
    var h, n := HeaderSize(b), FrameSize(b);
    assert b'[..h] == b'[..n][..h] == b[..n][..h] == b[..h];
    assert b'[h..n] == b'[..n][h..] == b[..n][h..] == b[h..n];
  }

  lemma SameSizes(b: seq<Byte>, b': seq<Byte>)
    requires |b| >= 8 && |b'| >= 8 && b'[..8] == b[..8]
    ensures FrameSize(b') == FrameSize(b) && HeaderSize(b') == HeaderSize(b)
  {
    assert forall i | 0 <= i < 8 :: b'[i] == b'[..8][i] == b[..8][i] == b[i];
  }

  /** Further bytes change neither the sizes nor the header already read. */
  lemma HeaderKept(before: seq<Byte>, chunk: seq<Byte>, h: nat)
    requires 8 <= h <= |before|
    ensures FrameSize(before + chunk) == FrameSize(before) && HeaderSize(before + chunk) == HeaderSize(before)
    ensures (before + chunk)[..h] == before[..h] && (before + chunk)[h..] == before[h..] + chunk
  {
  }

  // ---------- The byte source ----------

  /** A stream of bytes and, for each call of `Read`, how much it is willing to deliver: a positive number of
      bytes, 0 for "nothing available", or a negative error. */
  class ReadStream {
    const data: seq<Byte>
    const script: nat -> int
    var pos: nat
    var tick: nat

    constructor (data: seq<Byte>, script: nat -> int)
      ensures this.data == data && this.script == script && pos == 0 && tick == 0
    {
      this.data, this.script, pos, tick := data, script, 0, 0;
    }

    ghost function Rest(): seq<Byte>
      requires pos <= |data|
      reads this
    {
      data[pos..]
    }

    /** Delivers at most `count` of the bytes that follow, which fit an `int` result. */
    method Read(count: nat) returns (result: int, chunk: seq<Byte>)
      requires pos <= |data|
      modifies this
      ensures tick == old(tick) + 1 && old(pos) <= pos <= |data|
      ensures chunk == data[old(pos)..pos] && |chunk| <= count
      ensures result == if script(old(tick)) < 0 then script(old(tick)) else |chunk|
      ensures chunk == [] <==> count == 0 || script(old(tick)) <= 0 || old(pos) == |data|
    {
      var want := script(tick);
      tick := tick + 1;
      if want <= 0 {
        return want, [];
      }
      var n := if want < count then want else count;
      n := if n < |data| - pos then n else |data| - pos;
      n := if n < 0x7fff_ffff then n else 0x7fff_ffff;
      result, chunk := n, data[pos..pos + n];
      pos := pos + n;
    }
  }

  function Resize(s: seq<Byte>, n: nat): (r: seq<Byte>)
    ensures |r| == n && (n >= |s| ==> r[..|s|] == s)
  {
    if n <= |s| then s[..n] else s + seq(n - |s|, _ => 0)
  }

  /** Replaces the bytes of `buf` from `at` on by `chunk`. */
  function Overwrite(buf: seq<Byte>, at: nat, chunk: seq<Byte>): (r: seq<Byte>)
    requires at + |chunk| <= |buf|
    ensures |r| == |buf| && r[..at + |chunk|] == buf[..at] + chunk
  {
    buf[..at] + chunk + buf[at + |chunk|..]
  }

  lemma OverwriteIs(buf: seq<Byte>, at: nat, chunk: seq<Byte>)
    requires at + |chunk| <= |buf|
    ensures var r := Overwrite(buf, at, chunk);
            && |r| == |buf| && r[at..at + |chunk|] == chunk
            && forall k | 0 <= k < at || at + |chunk| <= k < |buf| :: r[k] == buf[k]
  {
  }

  /** Reads until the buffer is full or the stream delivers nothing. */
  method FillupBuffer(reader: ReadStream, buf: seq<Byte>, actSize: nat) returns (ok: bool, buf': seq<Byte>, act': nat)
    requires reader.pos <= |reader.data| && actSize <= |buf|
    modifies reader
    ensures old(reader.pos) <= reader.pos <= |reader.data| && old(reader.tick) <= reader.tick
    ensures |buf'| == |buf| && act' == actSize + (reader.pos - old(reader.pos)) <= |buf|
    ensures buf'[..act'] == buf[..actSize] + reader.data[old(reader.pos)..reader.pos]
    ensures ok <==> act' == |buf|
    ensures !ok ==>
              old(reader.tick) < reader.tick && (reader.script(reader.tick - 1) <= 0 || reader.pos == |reader.data|)
    ensures Paced(reader.script, old(reader.tick), old(reader.pos), reader.tick, reader.pos, ok)
  {
    buf', act' := buf, actSize;
    while act' < |buf'|
      invariant old(reader.pos) <= reader.pos <= |reader.data| && old(reader.tick) <= reader.tick
      invariant |buf'| == |buf| && act' == actSize + (reader.pos - old(reader.pos)) <= |buf|
      invariant buf'[..act'] == buf[..actSize] + reader.data[old(reader.pos)..reader.pos]
      invariant Paced(reader.script, old(reader.tick), old(reader.pos), reader.tick, reader.pos, true)
    {
      ghost var was := reader.pos;
      var result, chunk := reader.Read(|buf'| - act');
      if result <= 0 {
        assert chunk == [];
        return false, buf', act';
      }
      assert reader.data[old(reader.pos)..reader.pos] == reader.data[old(reader.pos)..was] + chunk;
      buf' := Overwrite(buf', act', chunk);
      act' := act' + result;
    }
    ok := true;
  }

  /** Names are cut to 63 bytes. */
  function NameLength(name: seq<Byte>): (n: Byte)
    ensures n == if |name| <= 63 then |name| else 63
  {
    if |name| < 63 then |name| else 63
  }

  lemma GetSame(d: seq<Byte>, d': seq<Byte>, offset: nat)
    requires offset + 4 <= |d| && offset + 4 <= |d'| && forall k | offset <= k < offset + 4 :: d'[k] == d[k]
    ensures GetU32(d', offset) == GetU32(d, offset)
  {
  }

  lemma {:induction false} PartsAreFrame(h: seq<Byte>, body: seq<Byte>, fields: Fields)
    requires |h| >= 44 && h[10] <= 63 && 28 + h[10] <= |h| - 16
    requires GetU32(h, 0) == |h| + |body| && GetU32(h, 4) == |h| - 20
    requires GetU64(h, 20) == fields.timestamp && h[28..28 + h[10]] == fields.name
    requires GetU32(h, |h| - 16) == fields.width && GetU32(h, |h| - 12) == fields.height
    requires GetU32(h, |h| - 8) == fields.bytesPerLine
    requires h[|h| - 4] == fields.bitsPerPixel && h[|h| - 3] == fields.colorFormat
    ensures IsFrame(h + body) && Decode(h + body) == Decoded(fields, body)
  {
    hide GetU32;
    assert (h + body)[..8] == h[..8];
    SameSizes(h, h + body);
    assert (h + body)[..|h|] == h && (h + body)[|h|..|h| + |body|] == body;
    assert (h + body)[10] == h[10];
  }

  /** Going from position `start` to `pos`, exactly the bytes in between were appended. */
  ghost predicate Took(before: seq<Byte>, start: nat, data: seq<Byte>, after: seq<Byte>, pos: nat) {
    start <= pos <= |data| && after == before + data[start..pos]
  }

  lemma TookWhole(before: seq<Byte>, start: nat, data: seq<Byte>, after: seq<Byte>, pos: nat)
    requires Took(before, start, data, after, pos)
    ensures after + data[pos..] == before + data[start..]
  {
  }

  lemma TookThenTook(a: seq<Byte>, i: nat, data: seq<Byte>, b: seq<Byte>, j: nat, c: seq<Byte>, k: nat)
    requires Took(a, i, data, b, j) && Took(b, j, data, c, k)
    ensures Took(a, i, data, c, k)
  {
  }

  lemma Consecutive(data: seq<Byte>, pos: nat, m: nat, n: nat)
    requires m <= n && pos + n <= |data|
    ensures data[pos..][..m] == data[pos..pos + m]
    ensures data[pos..][..n] == data[pos..pos + m] + data[pos + m..pos + n]
    ensures data[pos..][m..n] == data[pos + m..pos + n]
  {
  }

  // ---------- Reads that deliver nothing ----------

  /** How often the stream had nothing to deliver in its first `n` reads. */
  function Starvations(script: nat -> int, n: nat): nat {
    if n == 0 then 0 else Starvations(script, n - 1) + if script(n - 1) <= 0 then 1 else 0
  }

  lemma NoStarvationsYet(script: nat -> int)
    ensures Starvations(script, 0) == 0
  {
  }

  lemma {:induction false} StarvationsMonotone(script: nat -> int, m: nat, n: nat)
    requires m <= n
    ensures Starvations(script, m) <= Starvations(script, n) <= Starvations(script, m) + (n - m)
    decreases n
  {
    if m < n {
      StarvationsMonotone(script, m, n - 1);
    }
  }

  /** From read `i` at position `p` to read `j` at position `q`, every read delivered something, except the last
      one unless `ok`. */
  ghost predicate Paced(script: nat -> int, i: nat, p: nat, j: nat, q: nat, ok: bool) {
    && i <= j && p <= q && (p < q ==> i < j) && j - i <= q - p + (if ok then 0 else 1)
    && (if ok then Starvations(script, j) == Starvations(script, i)
        else i < j && Starvations(script, j - 1) == Starvations(script, i))
  }

  lemma PacedNothing(script: nat -> int, i: nat, p: nat)
    ensures Paced(script, i, p, i, p, true)
  {
  }

  lemma PacedThen(script: nat -> int, i: nat, p: nat, j: nat, q: nat, k: nat, r: nat, ok: bool)
    requires Paced(script, i, p, j, q, true) && Paced(script, j, q, k, r, ok)
    ensures Paced(script, i, p, k, r, ok)
  {
  }

  /** What pacing says in numbers, when a read that delivered nothing was offered nothing. */
  lemma PacedCounts(script: nat -> int, i: nat, p: nat, j: nat, q: nat, ok: bool)
    requires Paced(script, i, p, j, q, ok) && (!ok ==> j > 0 && script(j - 1) <= 0)
    ensures var missed := if ok then 0 else 1;
            && Starvations(script, j) == Starvations(script, i) + missed
            && i <= j <= i + (q - p) + missed && (!ok || p < q ==> i < j)
  {
  }

  /** The reads from `i` to `j` were made by a call that needs data: each delivered something, except that the last
      one failed unless `ok`; and they are at most `n`, one more if it failed. */
  ghost predicate Fetched(script: nat -> int, i: nat, j: nat, n: nat, ok: bool) {
    && i < j <= i + n + (if ok then 0 else 1)
    && (forall t: nat | i <= t < j - (if ok then 0 else 1) :: script(t) > 0)
    && (!ok ==> script(j - 1) < 0)
  }

  lemma FetchedThen(script: nat -> int, i: nat, j: nat, k: nat, m: nat, n: nat, ok: bool)
    requires Fetched(script, i, j, m, true) && Fetched(script, j, k, n, ok)
    ensures Fetched(script, i, k, m + n, ok)
  {
  }

  lemma FetchedMore(script: nat -> int, i: nat, j: nat, n: nat, extra: nat, ok: bool)
    requires Fetched(script, i, j, n, ok)
    ensures Fetched(script, i, j, n + extra, ok)
  {
  }

  // ---------- The frame object ----------

  datatype ParseState = IfHeader | V4lHeader | V4lBody | Deserialized

  datatype Outcome = Incomplete | Complete | AlreadyDeserialized

  class Frame {
    var timestamp: U64
    var name: seq<Byte>
    var width: U32
    var height: U32
    var bytesPerLine: U32
    var bitsPerPixel: Byte
    var colorFormat: Byte
    var header: seq<Byte>
    var videoOffset: nat
    var body: seq<Byte>
    var state: ParseState
    var accumulated: nat
    ghost var consumed: seq<Byte>

    constructor ()
      ensures Tracking() && state == IfHeader && consumed == []
    {
      timestamp, name, width, height, bytesPerLine, bitsPerPixel, colorFormat := 0, [], 0, 0, 0, 0, 0;
      header, videoOffset, body, state, accumulated, consumed := [], 0, [], IfHeader, 0, [];
    }

    function FieldValues(): Fields
      reads this
    {
      Fields(timestamp, name, width, height, bytesPerLine, bitsPerPixel, colorFormat)
    }

    function Value(): Decoded
      reads this
    {
      Decoded(FieldValues(), body)
    }

    // What each state of the resumable parser has done with the bytes consumed so far.

    ghost predicate InFrameHeader()
      reads this
    {
      && accumulated == |consumed| < 8
      && (accumulated > 0 ==> |header| == 8 && header[..accumulated] == consumed)
    }

    ghost predicate InV4lHeader()
      reads this
    {
      && 8 <= accumulated == |consumed| < |header| == HeaderSize(consumed)
      && header[..accumulated] == consumed
      && videoOffset == |header| - 16 && |header| <= FrameSize(consumed) == |header| + |body|
    }

    ghost predicate InBody()
      reads this
    {
      && 28 <= |header| <= |consumed| && header == consumed[..|header|]
      && |header| == HeaderSize(consumed) && FrameSize(consumed) == |header| + |body|
      && videoOffset == |header| - 16 && header[10] < 128 && 28 + header[10] <= |header|
      && FieldValues() == ParseHeader(header)
      && accumulated == |consumed| - |header| <= |body| && body[..accumulated] == consumed[|header|..]
    }

    ghost predicate Tracking()
      reads this
    {
      match state
      case IfHeader => InFrameHeader()
      case V4lHeader => InV4lHeader()
      case V4lBody => InBody()
      case Deserialized => InBody() && accumulated == |body|
    }

    method ParseIFrameHeader(reader: ReadStream) returns (ok: bool)
      requires reader.pos <= |reader.data| && Tracking() && state == IfHeader
      requires StartsWithFrame(consumed + reader.Rest())
      modifies this, reader
      ensures Took(old(consumed), old(reader.pos), reader.data, consumed, reader.pos) && Tracking()
      ensures state == (if ok then V4lHeader else IfHeader)
      ensures ok || Starved(old(reader.tick), reader)
      ensures Paced(reader.script, old(reader.tick), old(reader.pos), reader.tick, reader.pos, ok)
    {
      hide GetU32, HeaderSize, FrameSize, Resize, Paced;
      ghost var whole := consumed + reader.Rest();
      if |header| != 8 {
        header := Resize(header, 8);
      }
      ok, header, accumulated := FillupBuffer(reader, header, accumulated);
      ghost var before, chunk := consumed, reader.data[old(reader.pos)..reader.pos];
      consumed := before + chunk;
      TookWhole(before, old(reader.pos), reader.data, consumed, reader.pos);
      assert header[..accumulated] == consumed;
      if ok {
        assert whole[..8] == consumed == header;
        SameSizes(whole, consumed);
        var frameSize := FrameSize(header);
        var headerSize := HeaderSize(header);
        var dataSize := frameSize - headerSize;
        body := seq(dataSize, _ => 0);
        videoOffset := headerSize - 16;
        header := Resize(header, headerSize);
        state := V4lHeader;
      }
    }

    method ParseV4LFrameHeader(reader: ReadStream) returns (ok: bool)
      requires reader.pos <= |reader.data| && Tracking() && state == V4lHeader
      requires StartsWithFrame(consumed + reader.Rest())
      modifies this, reader
      ensures Took(old(consumed), old(reader.pos), reader.data, consumed, reader.pos) && Tracking()
      ensures state == (if ok then V4lBody else V4lHeader)
      ensures ok || Starved(old(reader.tick), reader)
      ensures Paced(reader.script, old(reader.tick), old(reader.pos), reader.tick, reader.pos, ok)
    {
      hide GetU32, ParseHeader, Paced;
      ghost var before, whole := consumed, consumed + reader.Rest();
      ok, header, accumulated := FillupBuffer(reader, header, accumulated);
      consumed := consumed + reader.data[old(reader.pos)..reader.pos];
      TookWhole(before, old(reader.pos), reader.data, consumed, reader.pos);
      SameSizes(consumed, before);
      SameSizes(consumed, whole);
      if ok {
        assert header == header[..accumulated] == consumed == whole[..|header|];
        StartBody();
      }
    }

    /** The header is complete: its fields are read and the body comes next. */
    method StartBody()
      requires 28 <= |header| == |consumed| && |header| == HeaderSize(consumed)
               && FrameSize(consumed) == |header| + |body|
      requires header == consumed && header[10] < 128 && 28 + header[10] <= |header| && videoOffset == |header| - 16
      modifies this
      ensures Tracking() && state == V4lBody && consumed == old(consumed)
    {
      hide ParseHeader, HeaderSize, FrameSize;
      assert consumed[..|header|] == consumed && consumed[|header|..] == [];
      SetFields();
      state := V4lBody;
      accumulated := 0;
    }

    /** Reads every field out of a complete header. */
    method SetFields()
      requires |header| >= 28 && header[10] < 128 && 28 + header[10] <= |header| && videoOffset == |header| - 16
      modifies `timestamp, `name, `width, `height, `bytesPerLine, `bitsPerPixel, `colorFormat
      ensures FieldValues() == ParseHeader(header)
    {
      timestamp := GetU64(header, 20);
      var nameLength := header[10];
      name := header[28..28 + nameLength];
      width := GetU32(header, videoOffset);
      height := GetU32(header, videoOffset + 4);
      bytesPerLine := GetU32(header, videoOffset + 8);
      bitsPerPixel := header[videoOffset + 12];
      colorFormat := header[videoOffset + 13];
    }

    method ParseBody(reader: ReadStream) returns (ok: bool)
      requires reader.pos <= |reader.data| && Tracking() && state == V4lBody
      modifies this, reader
      ensures Took(old(consumed), old(reader.pos), reader.data, consumed, reader.pos) && Tracking()
      ensures state == (if ok then Deserialized else V4lBody) && (!ok ==> accumulated < |body|)
      ensures ok || Starved(old(reader.tick), reader)
      ensures Paced(reader.script, old(reader.tick), old(reader.pos), reader.tick, reader.pos, ok)
    {
      hide GetU32, ParseHeader, HeaderSize, FrameSize, Paced;
      ghost var before := consumed;
      ok, body, accumulated := FillupBuffer(reader, body, accumulated);
      ghost var chunk := reader.data[old(reader.pos)..reader.pos];
      HeaderKept(before, chunk, |header|);
      consumed := consumed + chunk;
      if ok {
        state := Deserialized;
      }
    }

    /** Continues from wherever the previous call was interrupted.  Bytes are neither lost nor read twice, the
        frame is reported complete once, and a call stops early only when the stream delivered nothing. */
    method AsyncDeserializeFrom(reader: ReadStream) returns (outcome: Outcome)
      requires reader.pos <= |reader.data| && Tracking()
      requires state != Deserialized ==> StartsWithFrame(consumed + reader.Rest())
      modifies this, reader
      ensures Took(old(consumed), old(reader.pos), reader.data, consumed, reader.pos) && Tracking()
      ensures outcome == AlreadyDeserialized <==> old(state) == Deserialized
      ensures outcome == AlreadyDeserialized ==> reader.pos == old(reader.pos) && Value() == old(Value())
      ensures outcome != Incomplete <==> state == Deserialized
      ensures outcome == Complete ==> IsFrame(consumed) && Value() == Decode(consumed)
      ensures outcome == Incomplete ==> old(reader.tick) < reader.tick && reader.script(reader.tick - 1) <= 0
      ensures outcome == Incomplete ==> |consumed| < FrameSize(old(consumed + reader.Rest()))
      ensures outcome != AlreadyDeserialized ==> consumed + reader.Rest() == old(consumed + reader.Rest())
      ensures Paced(reader.script, old(reader.tick), old(reader.pos), reader.tick, reader.pos, outcome != Incomplete)
    {
      hide InFrameHeader, InV4lHeader, InBody, StartsWithFrame, FrameSize, Paced;
      ghost var whole := consumed + reader.Rest();
      assert reader.data[reader.pos..reader.pos] == [];
      PacedNothing(reader.script, reader.tick, reader.pos);
      while true
        invariant Took(old(consumed), old(reader.pos), reader.data, consumed, reader.pos) && Tracking()
        invariant old(reader.tick) <= reader.tick
        invariant Paced(reader.script, old(reader.tick), old(reader.pos), reader.tick, reader.pos, true)
        invariant old(state) == Deserialized <==> state == Deserialized
        invariant state == Deserialized ==> reader.pos == old(reader.pos) && Value() == old(Value())
        invariant state != Deserialized ==> consumed + reader.Rest() == whole
        decreases match state case IfHeader => 3 case V4lHeader => 2 case V4lBody => 1 case Deserialized => 0
      {
        ghost var mid, at, tick := consumed, reader.pos, reader.tick;
        var ok;
        match state {
          case IfHeader =>
            ok := ParseIFrameHeader(reader);
          case V4lHeader =>
            ok := ParseV4LFrameHeader(reader);
          case V4lBody =>
            ok := ParseBody(reader);
          case Deserialized =>
            return AlreadyDeserialized;
        }
        TookThenTook(old(consumed), old(reader.pos), reader.data, mid, at, consumed, reader.pos);
        TookWhole(mid, at, reader.data, consumed, reader.pos);
        PacedThen(reader.script, old(reader.tick), old(reader.pos), tick, at, reader.tick, reader.pos, ok);
        if !ok {
          StillMoreToCome(reader);
          return Incomplete;
        }
        if state == Deserialized {
          WholeFrameConsumed();
          return Complete;
        }
      }
    }

    /** One `do { read } while` of the blocking parser: fills `buf` from `from` on, or fails on a read error. */
    static method ReadFully(reader: ReadStream, buf: seq<Byte>, from: nat) returns (ok: bool, buf': seq<Byte>)
      requires reader.pos <= |reader.data| && from <= |buf| && |buf| - from <= |reader.data| - reader.pos
      requires forall t: nat | reader.tick <= t :: reader.script(t) != 0
      modifies reader
      ensures old(reader.tick) < reader.tick && old(reader.pos) <= reader.pos <= |reader.data|
      ensures ok ==> reader.pos == old(reader.pos) + (|buf| - from)
      ensures ok ==> buf' == buf[..from] + reader.data[old(reader.pos)..reader.pos]
      ensures reader.pos <= old(reader.pos) + (|buf| - from)
      ensures var most := reader.pos - old(reader.pos) + if ok && from == |buf| then 1 else 0;
              Fetched(reader.script, old(reader.tick), reader.tick, most, ok)
    {
      buf' := buf;
      var bytesRead := from;
      while true
        invariant old(reader.tick) <= reader.tick && old(reader.pos) <= reader.pos <= |reader.data|
        invariant |buf'| == |buf| && bytesRead == from + (reader.pos - old(reader.pos)) <= |buf|
        invariant buf'[..bytesRead] == buf[..from] + reader.data[old(reader.pos)..reader.pos]
        invariant bytesRead == |buf| ==> reader.tick == old(reader.tick)
        invariant reader.tick - old(reader.tick) <= reader.pos - old(reader.pos)
        invariant forall t: nat | old(reader.tick) <= t < reader.tick :: reader.script(t) > 0
        decreases |buf| - bytesRead, old(reader.tick) + 1 - reader.tick
      {
        ghost var was := reader.pos;
        var read, chunk := reader.Read(|buf'| - bytesRead);
        if read < 0 {
          return false, buf';
        }
        assert reader.data[old(reader.pos)..reader.pos] == reader.data[old(reader.pos)..was] + chunk;
        buf' := Overwrite(buf', bytesRead, chunk);
        bytesRead := bytesRead + read;
        if bytesRead == |buf'| {
          assert buf' == buf'[..bytesRead];
          return true, buf';
        }
      }
    }

    /** The size fields, then the rest of the header. */
    method ReadHeader(reader: ReadStream) returns (ok: bool)
      requires reader.pos <= |reader.data| && StartsWithFrame(reader.Rest())
      requires forall t: nat | reader.tick <= t :: reader.script(t) != 0
      modifies this, reader
      ensures old(reader.tick) < reader.tick && old(reader.pos) <= reader.pos <= |reader.data|
      ensures var whole := old(reader.Rest());
              ok ==> reader.pos == old(reader.pos) + HeaderSize(whole) && header == whole[..HeaderSize(whole)]
                     && videoOffset == |header| - 16 && |body| == FrameSize(whole) - HeaderSize(whole)
      ensures reader.pos <= old(reader.pos) + HeaderSize(old(reader.Rest()))
      ensures Fetched(reader.script, old(reader.tick), reader.tick, reader.pos - old(reader.pos), ok)
    {
      hide GetU32, HeaderSize, FrameSize, Resize, Fetched;
      ghost var whole := reader.Rest();
      Consecutive(reader.data, reader.pos, 8, HeaderSize(whole));
      header := Resize(header, 8);
      ok, header := ReadFully(reader, header, 0);
      if !ok {
        return;
      }
      ghost var tick, at := reader.tick, reader.pos;
      assert header == reader.data[old(reader.pos)..old(reader.pos) + 8] == whole[..8];
      SameSizes(whole, header);
      var frameSize, headerSize := FrameSize(header), HeaderSize(header);
      body := seq(frameSize - headerSize, _ => 0);
      videoOffset := headerSize - 16;
      header := Resize(header, headerSize);
      ok, header := ReadFully(reader, header, 8);
      FetchedThen(reader.script, old(reader.tick), tick, reader.tick, at - old(reader.pos), reader.pos - at, ok);
    }

    /** The blocking parser.  Over any chunking in which every read makes progress or fails, it consumes exactly
        one frame and decodes it; it gives up only on a read error. */
    method DeserializeFrom(reader: ReadStream) returns (ok: bool)
      requires reader.pos <= |reader.data| && StartsWithFrame(reader.Rest())
      requires forall t: nat | reader.tick <= t :: reader.script(t) != 0
      modifies this, reader
      ensures old(reader.tick) < reader.tick && old(reader.pos) <= reader.pos <= |reader.data|
      ensures ok ==> reader.pos == old(reader.pos) + FrameSize(old(reader.Rest()))
      ensures ok ==> Value() == Decode(old(reader.Rest()))
      ensures ok ==> header == old(reader.Rest())[..HeaderSize(old(reader.Rest()))]
      ensures reader.pos <= old(reader.pos) + FrameSize(old(reader.Rest()))
      ensures var most := reader.pos - old(reader.pos) + if ok then 1 else 0;
              Fetched(reader.script, old(reader.tick), reader.tick, most, ok)
    {
      hide GetU32, ParseHeader, HeaderSize, FrameSize, Fetched;
      ghost var whole := reader.Rest();
      Consecutive(reader.data, reader.pos, HeaderSize(whole), FrameSize(whole));
      ok := ReadHeader(reader);
      if !ok {
        return;
      }
      ghost var tick, at := reader.tick, reader.pos;
      SetFields();
      ghost var size := |body|;
      ok, body := ReadFully(reader, body, 0);
      ghost var extra := if ok && size == 0 then 1 else 0;
      FetchedThen(reader.script, old(reader.tick), tick, reader.tick, at - old(reader.pos),
          reader.pos - at + extra, ok);
      ghost var most := reader.pos - old(reader.pos) + extra;
      FetchedMore(reader.script, old(reader.tick), reader.tick, most, if ok then 1 - extra else 0, ok);
      if ok {
        assert body == reader.data[at..reader.pos] == whole[HeaderSize(whole)..FrameSize(whole)];
      }
    }

    // ---------- Printing ----------

    /** The header was laid out for the current name. */
    ghost predicate Named()
      reads this
    {
      && videoOffset == 28 + PaddedSize(NameLength(name)) && |header| == videoOffset + 16
      && GetU32(header, 4) == videoOffset - 4
      && header[8] == 1 && header[9] == 0 && header[11] == 0
      && GetU32(header, 12) == 0x100 && GetU32(header, 16) == 0
      && header[10] == NameLength(name) && header[28..28 + NameLength(name)] == name[..NameLength(name)]
    }

    ghost function WireSize(): nat
      reads this
    {
      |body| + |header|
    }

    method SetName(n: seq<Byte>)
      modifies `name, `header, `videoOffset
      ensures Named() && name == n
      ensures header[10] == (if |n| <= 63 then |n| else 63)
              && header[28..28 + header[10]] == if |n| <= 63 then n else n[..63]
    {
      name := n;
      PrepareHeader();
    }

    method PrepareHeader()
      modifies `header, `videoOffset
      ensures Named()
      ensures var n := if |name| <= 63 then |name| else 63;
              && header[10] == n && header[28..28 + n] == name[..n]
              && videoOffset == |header| - 16 && GetU32(header, 4) == |header| - 20
              && |header| % 4 == 0 && 44 + n <= |header| < 48 + n
              && header[8] == 1 && header[9] == 0 && header[11] == 0
              && GetU32(header, 12) == 0x100 && GetU32(header, 16) == 0
              && forall k | 28 + n <= k < |header| :: header[k] == 0
    {
      hide GetU32, Overwrite;
      var nameLength := NameLength(name);
      videoOffset := 28 + PaddedSize(nameLength);
      var h := FixedFields(nameLength);
      ghost var complete := h;
      OverwriteIs(h, 28, name[..nameLength]);
      h := Overwrite(h, 28, name[..nameLength]);
      GetSame(complete, h, 4);
      GetSame(complete, h, 12);
      GetSame(complete, h, 16);
      header := h;
    }

    /** Size, version, name length and media type, in a header that is zero otherwise. */
    method FixedFields(nameLength: Byte) returns (h: seq<Byte>)
      requires videoOffset == 28 + PaddedSize(nameLength)
      ensures |h| == videoOffset + 16 && GetU32(h, 4) == videoOffset - 4
      ensures h[8] == 1 && h[9] == 0 && h[10] == nameLength && h[11] == 0
      ensures GetU32(h, 12) == 0x100 && GetU32(h, 16) == 0 && forall k | 20 <= k < |h| :: h[k] == 0
    {
      hide GetU32;
      h := seq(videoOffset + 16, _ => 0);
      h := SetU32(h, 4, videoOffset - 4);
      ghost var sized := h;
      h := h[8 := 1][9 := 0][10 := nameLength][11 := 0];
      GetSame(sized, h, 4);
      ghost var versioned := h;
      h := SetU32(h, 12, 0x100);
      GetSame(versioned, h, 4);
      ghost var typed := h;
      h := SetU32(h, 16, 0);
      GetSame(typed, h, 4);
      GetSame(typed, h, 12);
    }

    /** Everything the frame holds, with the name cut to what fits. */
    ghost function CutFields(): Fields
      reads this
    {
      FieldValues().(name := name[..NameLength(name)])
    }

    /** Fills in the fields that may have changed since the header was laid out.  No write disturbs another. */
    method UpdateFrame()
      requires Named() && WireSize() < 0x1_0000_0000
      modifies `header
      ensures Named() && |header| == old(|header|)
      ensures IsFrame(header + body) && Decode(header + body) == Decoded(CutFields(), body)
      ensures Decode(header + body).fields ==
              Fields(timestamp, if |name| <= 63 then name else name[..63], width, height, bytesPerLine, bitsPerPixel,
                     colorFormat)
    {
      hide GetU32, HeaderSize, FrameSize, ParseHeader;
      var n := NameLength(name);
      ghost var laidOut := header;
      header := WriteStart();
      ghost var started := header;
      header := WriteVideo();

      GetSame(laidOut, header, 4);
      GetSame(laidOut, header, 12);
      GetSame(laidOut, header, 16);
      assert header[28..28 + n] == laidOut[28..28 + n];
      GetSame(started, header, 0);
      GetSame(started, header, 20);
      GetSame(started, header, 24);
      PartsAreFrame(header, body, CutFields());
    }

    /** The frame size and the timestamp. */
    method WriteStart() returns (h: seq<Byte>)
      requires |header| >= 28 && WireSize() < 0x1_0000_0000
      ensures |h| == |header| && forall k | 4 <= k < 20 || 28 <= k < |h| :: h[k] == header[k]
      ensures GetU32(h, 0) == WireSize() && GetU64(h, 20) == timestamp
    {
      hide GetU32;
      h := SetU32(header, 0, (|header| + |body|) % 0x1_0000_0000);
      ghost var sized := h;
      h := SetU64(h, 20, timestamp);
      GetSame(sized, h, 0);
    }

    /** The fourteen bytes of video fields. */
    method WriteVideo() returns (h: seq<Byte>)
      requires videoOffset + 16 == |header|
      ensures |h| == |header| && forall k | 0 <= k < videoOffset :: h[k] == header[k]
      ensures GetU32(h, videoOffset) == width && GetU32(h, videoOffset + 4) == height
      ensures GetU32(h, videoOffset + 8) == bytesPerLine
      ensures h[videoOffset + 12] == bitsPerPixel && h[videoOffset + 13] == colorFormat
    {
      hide GetU32;
      h := SetU32(header, videoOffset, width);
      ghost var w := h;
      h := SetU32(h, videoOffset + 4, height);
      ghost var wh := h;
      h := SetU32(h, videoOffset + 8, bytesPerLine);
      ghost var whb := h;
      h := h[videoOffset + 12 := bitsPerPixel];
      h := h[videoOffset + 13 := colorFormat];
      GetSame(w, h, videoOffset);
      GetSame(wh, h, videoOffset + 4);
      GetSame(whb, h, videoOffset + 8);
    }

    /** Prints header and body; tells whether everything was written. */
    method SerializeTo(writer: DatFile.DatFileWriter) returns (ok: bool)
      requires Named() && WireSize() < 0x8000_0000
      modifies `header, writer`rawFile, writer`framesWritten
      ensures ok == writer.filesOpened && Named() && |header| == old(|header|)
      ensures IsFrame(header + body) && Decode(header + body) == Decoded(CutFields(), body)
      ensures writer.rawFile ==
              if writer.filesOpened then old(writer.rawFile) + (header + body) else old(writer.rawFile)
    {
      hide GetU32, HeaderSize, FrameSize, ParseHeader, Decode, StartsWithFrame;
      UpdateFrame();
      var headerBytes := writer.Write(header);
      var bodyBytes := writer.Write(body);
      ok := headerBytes + bodyBytes == |body| + |header|;
    }

    lemma {:induction false} WholeFrameConsumed()
      requires InBody() && accumulated == |body|
      ensures IsFrame(consumed) && Value() == Decode(consumed)
    {
    }

    lemma {:induction false} StillMoreToCome(reader: ReadStream)
      requires Tracking() && state != Deserialized && (state == V4lBody ==> accumulated < |body|)
      requires reader.pos <= |reader.data| && StartsWithFrame(consumed + reader.Rest())
      ensures reader.pos < |reader.data| && |consumed| < FrameSize(consumed + reader.Rest())
    {
    }

    /** The last read was offered nothing. */
    ghost predicate Starved(start: nat, reader: ReadStream)
      reads reader
    {
      start < reader.tick && (reader.script(reader.tick - 1) <= 0 || reader.pos == |reader.data|)
    }
  }

  // ---------- Whole streams ----------

  function Bytes(frames: seq<seq<Byte>>): seq<Byte> {
    if frames == [] then [] else frames[0] + Bytes(frames[1..])
  }

  /** The frames before the `k`-th and those from it on make up the whole stream; taking one more adds its bytes. */
  lemma {:induction false} BytesUpTo(frames: seq<seq<Byte>>, k: nat)
    requires k <= |frames|
    ensures |Bytes(frames)| == |Bytes(frames[..k])| + |Bytes(frames[k..])|
    ensures k == 0 ==> |Bytes(frames[..k])| == 0
    ensures k < |frames| ==> |Bytes(frames[..k + 1])| == |Bytes(frames[..k])| + |frames[k]|
    ensures k < |frames| ==> frames[k..][0] == frames[k]
    decreases k
  {
    if k == 0 {
      assert frames[0..] == frames;
      if frames != [] {
        assert frames[..1][1..] == [];
      }
    } else {
      var tail := frames[1..];
      BytesUpTo(tail, k - 1);
      assert frames[..k][1..] == tail[..k - 1] && tail[k - 1..] == frames[k..];
      if k < |frames| {
        assert frames[..k + 1][1..] == tail[..k];
      }
    }
  }

  lemma {:induction false} BytesGrow(frames: seq<seq<Byte>>, j: nat, k: nat)
    requires j <= k <= |frames|
    ensures |Bytes(frames[..j])| <= |Bytes(frames[..k])|
    decreases k
  {
    if j < k {
      BytesUpTo(frames, k - 1);
      BytesGrow(frames, j, k - 1);
    }
  }

  /** A complete frame can be split off the front of a stream of frames in one way only. */
  lemma FrontFrame(frames: seq<seq<Byte>>, b: seq<Byte>, rest: seq<Byte>)
    requires frames != [] && IsFrame(frames[0]) && IsFrame(b) && b + rest == Bytes(frames)
    ensures b == frames[0] && rest == Bytes(frames[1..])
  {
    var whole := b + rest;
    assert b[..8] == whole[..8] == frames[0][..8];
    SameSizes(b, frames[0]);
    assert b == whole[..|b|] == frames[0];
    assert rest == whole[|b|..] == Bytes(frames[1..]);
  }

  lemma FrontStarts(frames: seq<seq<Byte>>)
    requires frames != [] && IsFrame(frames[0])
    ensures StartsWithFrame(Bytes(frames)) && Decode(Bytes(frames)) == Decode(frames[0])
    ensures FrameSize(Bytes(frames)) == |frames[0]| && Bytes(frames)[|frames[0]|..] == Bytes(frames[1..])
  {
    assert Bytes(frames)[..|frames[0]|] == frames[0];
    DecodeLocal(frames[0], Bytes(frames));
  }

  /** `decoded` are the first frames of the stream, in order and unchanged. */
  ghost predicate DecodedFrom(decoded: seq<Decoded>, frames: seq<seq<Byte>>) {
    && |decoded| <= |frames|
    && forall k | 0 <= k < |decoded| :: IsFrame(frames[k]) && decoded[k] == Decode(frames[k])
  }

  lemma NothingDecoded(frames: seq<seq<Byte>>)
    ensures DecodedFrom([], frames)
  {
  }

  lemma DecodedSnoc(decoded: seq<Decoded>, frames: seq<seq<Byte>>, d: Decoded)
    requires DecodedFrom(decoded, frames) && |decoded| < |frames|
    requires IsFrame(frames[|decoded|]) && d == Decode(frames[|decoded|])
    ensures DecodedFrom(decoded + [d], frames)
    ensures frames[|decoded|..][0] == frames[|decoded|] && frames[|decoded|..][1..] == frames[|decoded + [d]|..]
  {
  }

  /** The parser is somewhere inside the first of the frames `left`: what it consumed and what the stream still
      holds are these frames. */
  ghost predicate Midway(frame: Frame, reader: ReadStream, left: seq<seq<Byte>>)
    reads frame, reader
  {
    && reader.pos <= |reader.data| && frame.Tracking() && frame.state != Deserialized
    && frame.consumed + reader.Rest() == Bytes(left) && (left != [] ==> |frame.consumed| < |left[0]|)
  }

  /** Then the stream is not past the first of these frames. */
  lemma {:induction false} MidwayAt(frame: Frame, reader: ReadStream, frames: seq<seq<Byte>>, k: nat)
    requires k < |frames| && Midway(frame, reader, frames[k..]) && reader.data == Bytes(frames)
    ensures reader.pos < |Bytes(frames[..k + 1])|
  {
    hide Bytes;
    BytesUpTo(frames, k);
    assert |frame.consumed + reader.Rest()| == |frame.consumed| + (|reader.data| - reader.pos);
  }

  method NewFrame(reader: ReadStream, ghost left: seq<seq<Byte>>) returns (frame: Frame)
    requires reader.pos <= |reader.data| && reader.Rest() == Bytes(left) && (left != [] ==> IsFrame(left[0]))
    ensures fresh(frame) && Midway(frame, reader, left)
  {
    frame := new Frame();
    assert frame.consumed + reader.Rest() == reader.Rest();
  }

  /** One poll inside the first of the frames `left`: it reads at least once, every read but the last one of a poll
      that completes nothing brings the stream forward, and that last one was offered nothing. */
  method Poll(frame: Frame, reader: ReadStream, ghost left: seq<seq<Byte>>) returns (complete: bool)
    requires Midway(frame, reader, left) && left != [] && IsFrame(left[0])
    modifies frame, reader
    ensures old(reader.pos) <= reader.pos <= |reader.data|
    ensures complete ==> frame.Value() == Decode(left[0]) && reader.Rest() == Bytes(left[1..])
    ensures !complete ==> Midway(frame, reader, left)
    ensures var missed := if complete then 0 else 1;
            && Starvations(reader.script, reader.tick) == Starvations(reader.script, old(reader.tick)) + missed
            && old(reader.tick) < reader.tick <= old(reader.tick) + (reader.pos - old(reader.pos)) + missed
  {
    hide Decode, StartsWithFrame, FrameSize, Bytes, Starvations, Paced, Frame.InBody, Frame.InV4lHeader,
        Frame.InFrameHeader;
    FrontStarts(left);
    var outcome := frame.AsyncDeserializeFrom(reader);
    complete := outcome == Complete;
    PacedCounts(reader.script, old(reader.tick), old(reader.pos), reader.tick, reader.pos, complete);
    if complete {
      FrontFrame(left, frame.consumed, reader.Rest());
    }
  }

  /** Polling back-to-back frames through the resumable parser, a new object per frame, for at most `polls` calls:
      whatever the interleaving of partial reads, the frames come out in order and unchanged.  Every poll that
      completes no frame is one read that found the stream without anything to deliver, and every other read
      brings the stream forward; so all frames are out once the stream had something to deliver often enough. */
  method PollFrames(frames: seq<seq<Byte>>, script: nat -> int, polls: nat)
    returns (decoded: seq<Decoded>, ghost attempts: nat)
    requires forall k | 0 <= k < |frames| :: IsFrame(frames[k])
    ensures DecodedFrom(decoded, frames)
    ensures |decoded| == |frames| || |decoded| + Starvations(script, attempts) == polls
    ensures attempts <= |Bytes(frames)| + Starvations(script, attempts)
    ensures |decoded| < |frames| ==> attempts - Starvations(script, attempts) < |Bytes(frames[..|decoded| + 1])|
    ensures polls - Starvations(script, polls) >= |Bytes(frames)| ==> |decoded| == |frames|
    ensures forall k | 0 <= k <= |frames| && polls - Starvations(script, polls) >= |Bytes(frames[..k])| ::
            |decoded| >= k
  {
    hide Decode, StartsWithFrame, FrameSize, Bytes, Starvations, Midway, DecodedFrom;
    var reader := new ReadStream(Bytes(frames), script);
    assert frames[0..] == frames && reader.Rest() == Bytes(frames);
    var frame := NewFrame(reader, frames);
    decoded := [];
    NothingDecoded(frames);
    NoStarvationsYet(script);
    var n := 0;
    while n < polls && |decoded| < |frames|
      invariant fresh(reader) && fresh(frame) && reader.script == script && reader.data == Bytes(frames)
      invariant |decoded| <= |frames| && DecodedFrom(decoded, frames) && Midway(frame, reader, frames[|decoded|..])
      invariant reader.pos <= |reader.data| && n <= polls
      invariant |decoded| + Starvations(script, reader.tick) == n
      invariant n <= reader.tick <= reader.pos + Starvations(script, reader.tick)
    {
      ghost var left := frames[|decoded|..];
      var complete := Poll(frame, reader, left);
      if complete {
        DecodedSnoc(decoded, frames, frame.Value());
        decoded := decoded + [frame.Value()];
        frame := NewFrame(reader, left[1..]);
      }
      n := n + 1;
    }
    attempts := reader.tick;
    assert frames[..|frames|] == frames;
    if |decoded| < |frames| {
      MidwayAt(frame, reader, frames, |decoded|);
      StarvationsMonotone(script, polls, attempts);
      forall k | |decoded| < k <= |frames| ensures |Bytes(frames[..|decoded| + 1])| <= |Bytes(frames[..k])| {
        BytesGrow(frames, |decoded| + 1, k);
      }
    }
  }

  /** One frame taken off the stream by the blocking parser; it gives up only at a read that fails, the first to do so,
      and before the end of the frame. */
  method ReadOne(reader: ReadStream, ghost left: seq<seq<Byte>>) returns (ok: bool, d: Decoded)
    requires reader.pos <= |reader.data| && left != [] && IsFrame(left[0]) && reader.Rest() == Bytes(left)
    requires forall t: nat :: reader.script(t) != 0
    modifies reader
    ensures old(reader.pos) <= reader.pos <= |reader.data|
    ensures ok ==> d == Decode(left[0])
    ensures ok ==> reader.Rest() == Bytes(left[1..]) && reader.pos == old(reader.pos) + |left[0]|
    ensures Fetched(reader.script, old(reader.tick), reader.tick, |left[0]| + if ok then 1 else 0, ok)
  {
    hide Decode, StartsWithFrame, FrameSize, Fetched;
    ghost var before := reader.Rest();
    FrontStarts(left);
    var frame := new Frame();
    ok := frame.DeserializeFrom(reader);
    d := frame.Value();
    assert ok ==> reader.Rest() == before[|left[0]|..];
    ghost var taken := reader.pos - old(reader.pos);
    FetchedMore(reader.script, old(reader.tick), reader.tick, taken + if ok then 1 else 0, |left[0]| - taken, ok);
  }

  /** The blocking parser on the same stream decodes the same frames, each from exactly its own bytes: all of them,
      unless one of the reads it makes fails, at which it gives up.  `tried` counts its reads; a frame takes at most one
      more than it has bytes. */
  method ReadFrames(frames: seq<seq<Byte>>, script: nat -> int)
    returns (ok: bool, decoded: seq<Decoded>, ghost tried: nat)
    requires forall k | 0 <= k < |frames| :: IsFrame(frames[k])
    requires forall t: nat :: script(t) != 0
    ensures DecodedFrom(decoded, frames)
    ensures ok <==> |decoded| == |frames|
    ensures forall t: nat | t < tried - (if ok then 0 else 1) :: script(t) > 0
    ensures !ok ==> tried > 0 && script(tried - 1) < 0
    ensures tried <= (if ok then |Bytes(frames)| + |frames| else |Bytes(frames[..|decoded| + 1])| + |decoded| + 1)
  {
    hide Decode, StartsWithFrame, FrameSize, Bytes, DecodedFrom;
    var reader := new ReadStream(Bytes(frames), script);
    decoded := [];
    NothingDecoded(frames);
    BytesUpTo(frames, 0);
    assert frames[0..] == frames && reader.Rest() == Bytes(frames);
    while |decoded| < |frames|
      invariant fresh(reader) && reader.script == script && reader.pos <= |reader.data|
      invariant |decoded| <= |frames| && DecodedFrom(decoded, frames)
      invariant reader.Rest() == Bytes(frames[|decoded|..])
      invariant forall t: nat | t < reader.tick :: script(t) > 0
      invariant reader.tick <= |Bytes(frames[..|decoded|])| + |decoded|
    {
      var d;
      BytesUpTo(frames, |decoded|);
      ok, d := ReadOne(reader, frames[|decoded|..]);
      if !ok {
        tried := reader.tick;
        return;
      }
      DecodedSnoc(decoded, frames, d);
      decoded := decoded + [d];
    }
    assert frames[..|frames|] == frames;
    ok, tried := true, reader.tick;
  }

  /** What is printed is parsed back: over any chunking in which every read makes progress the same timestamp,
      dimensions, format and body return, the name cut to 63 bytes, and exactly the frame's bytes are consumed
      whatever follows them. */
  method PrintThenParse(f: Frame, script: nat -> int, following: seq<Byte>) returns (d: Decoded, used: nat)
    requires f.Named() && f.WireSize() < 0x8000_0000
    requires forall t: nat :: script(t) > 0
    modifies f`header
    ensures d == Decoded(f.CutFields(), f.body) && used == f.WireSize() == old(f.WireSize())
    ensures d.fields.timestamp == f.timestamp && d.fields.width == f.width && d.fields.height == f.height
    ensures d.fields.bytesPerLine == f.bytesPerLine && d.fields.bitsPerPixel == f.bitsPerPixel
    ensures d.fields.colorFormat == f.colorFormat && d.body == f.body
    ensures d.fields.name == if |f.name| <= 63 then f.name else f.name[..63]
  {
    hide Decode, StartsWithFrame, FrameSize, Frame.Named;
    var writer := new DatFile.DatFileWriter([], [], DatFile.Truncate);
    var _ := writer.OpenFiles();
    var _ := f.SerializeTo(writer);
    var printed := f.header + f.body;
    assert writer.rawFile == printed;
    var reader := new ReadStream(writer.rawFile + following, script);
    assert reader.Rest()[..|printed|] == printed;
    StartsLocal(printed, reader.Rest());
    var g := new Frame();
    var ok := g.DeserializeFrom(reader);
    assert ok;
    d, used := g.Value(), reader.pos;
  }

  lemma StartsLocal(b: seq<Byte>, b': seq<Byte>)
    requires IsFrame(b) && b <= b'
    ensures StartsWithFrame(b') && FrameSize(b') == |b| && Decode(b') == Decode(b)
  {
    assert b'[..|b|] == b;
    DecodeLocal(b, b');
  }

  /** A complete frame and nothing else. */
  predicate IsFrame(b: seq<Byte>) { StartsWithFrame(b) && FrameSize(b) == |b| }
}
