/**
 Recordings: a raw file of frames one after another, and an index file of (timestamp, offset) pairs.
 */
module DatFile {
  import opened Common
  import opened Converter

  datatype WritingStrategy = Append | Truncate

  datatype Entry = Entry(timestamp: U64, offset: nat)

  /** Sixteen bytes per entry, both numbers little-endian. */
  function EntryBytes(e: Entry): (b: seq<Byte>)
    ensures |b| == 16
  {
    ToLittle(e.timestamp, 8) + ToLittle(e.offset, 8)
  }

  /** The timestamp comes first, each number with its least significant byte first. */
  lemma EntryByte(e: Entry, k: nat)
    requires k < 8
    ensures Pow256(k) > 0
    ensures EntryBytes(e)[k] == e.timestamp / Pow256(k) % 0x100
    ensures EntryBytes(e)[8 + k] == e.offset / Pow256(k) % 0x100
  {
    LittleByte(e.timestamp, 8, k);
    LittleByte(e.offset, 8, k);
  }

  function IndexBytes(entries: seq<Entry>): (b: seq<Byte>)
    ensures |b| == 16 * |entries|
  {
    if entries == [] then [] else EntryBytes(entries[0]) + IndexBytes(entries[1..])
  }

  lemma {:induction false} IndexBytesSnoc(entries: seq<Entry>, e: Entry)
    ensures IndexBytes(entries + [e]) == IndexBytes(entries) + EntryBytes(e)
  {
    if entries == [] {
      assert [e][1..] == [];
    } else {
      assert (entries + [e])[1..] == entries[1..] + [e];
      IndexBytesSnoc(entries[1..], e);
    }
  }

  // ---------- Writing ----------

  const FRAMES_TO_FLUSH: nat := 10

  /** The byte count is returned as a 32-bit signed number: right below 2^31 only. */
  function AsInt(n: nat): (r: int)
    ensures r == n <==> n < 0x8000_0000
    ensures -0x8000_0000 <= r < 0x8000_0000 && (n - r) % 0x1_0000_0000 == 0
  {
    var low := n % 0x1_0000_0000;
    if low < 0x8000_0000 then low else low - 0x1_0000_0000
  }

  class DatFileWriter {
    const strategy: WritingStrategy
    var rawFile: seq<Byte>
    var indexFile: seq<Byte>
    var rawDataStreamSize: nat
    var framesWritten: nat
    var filesOpened: bool

    constructor (rawFile: seq<Byte>, indexFile: seq<Byte>, strategy: WritingStrategy)
      ensures this.rawFile == rawFile && this.indexFile == indexFile && this.strategy == strategy
      ensures rawDataStreamSize == 0 && framesWritten == 0 && !filesOpened
    {
      this.rawFile, this.indexFile, this.strategy := rawFile, indexFile, strategy;
      rawDataStreamSize, framesWritten, filesOpened := 0, 0, false;
    }

    method OpenFiles() returns (ok: bool)
      modifies `rawFile, `indexFile, `filesOpened
      ensures ok && filesOpened
      ensures rawFile == if old(filesOpened) || strategy == Append then old(rawFile) else []
      ensures indexFile == if old(filesOpened) || strategy == Append then old(indexFile) else []
    {
      if filesOpened {
        return true;
      }
      if strategy == Truncate {
        rawFile, indexFile := [], [];
      }
      filesOpened := true;
      ok := true;
    }

    method SaveMetaData(timestamp: U64, frameSize: nat)
      modifies `indexFile, `rawDataStreamSize
      ensures filesOpened ==> indexFile == old(indexFile) + EntryBytes(Entry(timestamp, old(rawDataStreamSize)))
      ensures filesOpened ==> rawDataStreamSize == old(rawDataStreamSize) + frameSize
      ensures !filesOpened ==> indexFile == old(indexFile) && rawDataStreamSize == old(rawDataStreamSize)
    {
      if !filesOpened {
        return;
      }
      indexFile := indexFile + ToLittle(timestamp, 8);
      indexFile := indexFile + ToLittle(rawDataStreamSize, 8);
      rawDataStreamSize := rawDataStreamSize + frameSize;
    }

    method Write(data: seq<Byte>) returns (count: int)
      modifies `rawFile, `framesWritten
      ensures rawFile == if filesOpened then old(rawFile) + data else old(rawFile)
      ensures count == if filesOpened then AsInt(|data|) else -1
      ensures framesWritten ==
              if !filesOpened then old(framesWritten) else if old(framesWritten) == 9 then 0 else old(framesWritten) + 1
    {
      if !filesOpened {
        return -1;
      }
      rawFile := rawFile + data;
      framesWritten := framesWritten + 1;
      if framesWritten == FRAMES_TO_FLUSH {
        framesWritten := 0;
      }
      count := AsInt(|data|);
    }
  }

  // ---------- Reading the index ----------

  /** Timestamps are written as unsigned and read back as signed 64-bit numbers. */
  function AsSigned(v: nat): (r: int)
    ensures v < 0x1_0000_0000_0000_0000 ==> -0x8000_0000_0000_0000 <= r < 0x8000_0000_0000_0000
    ensures (v - r) % 0x1_0000_0000_0000_0000 == 0
  {
    if v < 0x8000_0000_0000_0000 then v else v - 0x1_0000_0000_0000_0000
  }

  /** `std::map::insert`: an existing key keeps its value. */
  function Insert(m: map<int, nat>, key: int, value: nat): map<int, nat> { if key in m then m else m[key := value] }

  /** Inserts the pair held in sixteen bytes of memory. */
  function InsertBytes(m: map<int, nat>, mem: seq<Byte>): map<int, nat>
    requires |mem| == 16
  {
    Insert(m, AsSigned(FromLittle(mem[..8])), FromLittle(mem[8..]))
  }

  /** The read loop: whole records while there are any; then one more insertion of memory overwritten by
      however many bytes were left, because the end of the file is noticed only by a read that fails. */
  function ReadIndex(rest: seq<Byte>, mem: seq<Byte>, m: map<int, nat>): map<int, nat>
    requires |mem| == 16
    decreases |rest|
  {
    if |rest| >= 16 then ReadIndex(rest[16..], rest[..16], InsertBytes(m, rest[..16]))
    else InsertBytes(m, rest + mem[|rest|..])
  }

  /** `timestamp` and `frameSize` start uninitialised: `junk` is what they hold. */
  method ReadIndicies(index: seq<Byte>, junk: seq<Byte>) returns (m: map<int, nat>)
    requires |junk| == 16
    ensures m == ReadIndex(index, junk, map[])
  {
    var pos, good := 0, true;
    var timestamp, frameSize := junk[..8], junk[8..];
    assert timestamp + frameSize == junk;
    m := map[];
    while good
      invariant pos <= |index| && |timestamp| == 8 && |frameSize| == 8
      invariant good ==> ReadIndex(index[pos..], timestamp + frameSize, m) == ReadIndex(index, junk, map[])
      invariant !good ==> m == ReadIndex(index, junk, map[])
      decreases good, |index| - pos
    {
      ghost var pos0, timestamp0, frameSize0 := pos, timestamp, frameSize;
      ghost var rest, mem := index[pos..], timestamp + frameSize;
      pos, good, timestamp := ReadEight(index, pos, good, timestamp);
      pos, good, frameSize := ReadEight(index, pos, good, frameSize);
      assert (timestamp + frameSize)[..8] == timestamp && (timestamp + frameSize)[8..] == frameSize;
      Halves(index, pos0, timestamp0, frameSize0);
      assert |rest| >= 16 ==> timestamp + frameSize == rest[..16] && index[pos..] == rest[16..];
      assert |rest| < 16 ==> timestamp + frameSize == rest + mem[|rest|..];
      m := Insert(m, AsSigned(FromLittle(timestamp)), FromLittle(frameSize));
    }
  }

  /** What two reads of eight bytes take from `index` at `pos`, and what they leave of the memory before. */
  lemma Halves(index: seq<Byte>, pos: nat, a: seq<Byte>, b: seq<Byte>)
    requires pos <= |index| && |a| == 8 && |b| == 8
    ensures pos + 16 <= |index| ==>
              index[pos..pos + 8] + index[pos + 8..pos + 16] == index[pos..][..16]
                  && index[pos + 16..] == index[pos..][16..]
    ensures pos + 8 <= |index| < pos + 16 ==>
              index[pos..pos + 8] + (index[pos + 8..] + b[|index| - pos - 8..]) ==
                  index[pos..] + (a + b)[|index| - pos..]
    ensures |index| < pos + 8 ==>
              (index[pos..] + a[|index| - pos..]) + b == index[pos..] + (a + b)[|index| - pos..]
  {
  }

  /** `istream::read` of eight bytes: a short read keeps the rest of the memory and ends the stream. */
  method ReadEight(index: seq<Byte>, pos: nat, good: bool, mem: seq<Byte>)
    returns (pos': nat, good': bool, mem': seq<Byte>)
    requires pos <= |index| && |mem| == 8
    ensures pos <= pos' <= |index| && |mem'| == 8
    ensures !good ==> pos' == pos && !good' && mem' == mem
    ensures good && pos + 8 <= |index| ==> pos' == pos + 8 && good' && mem' == index[pos..pos + 8]
    ensures good && pos + 8 > |index| ==> pos' == |index| && !good' && mem' == index[pos..] + mem[|index| - pos..]
  {
    if !good {
      return pos, false, mem;
    }
    if pos + 8 <= |index| {
      return pos + 8, true, index[pos..pos + 8];
    }
    return |index|, false, index[pos..] + mem[|index| - pos..];
  }

  /** The map from each timestamp to the offset of its first entry. */
  function FirstOffsets(entries: seq<Entry>): map<int, nat> {
    if entries == [] then map[]
    else FirstOffsets(entries[1..])[AsSigned(entries[0].timestamp) := entries[0].offset]
  }

  lemma {:induction false} FirstOffsetsLeast(entries: seq<Entry>, key: int)
    ensures key in FirstOffsets(entries) <==> exists k | 0 <= k < |entries| :: AsSigned(entries[k].timestamp) == key
    ensures forall k | 0 <= k < |entries| && AsSigned(entries[k].timestamp) == key
                       && (forall j | 0 <= j < k :: AsSigned(entries[j].timestamp) != key) ::
              key in FirstOffsets(entries) && FirstOffsets(entries)[key] == entries[k].offset
    decreases |entries|
  {
    if entries != [] {
      var tail := entries[1..];
      FirstOffsetsLeast(tail, key);
      assert forall k | 0 <= k < |tail| :: tail[k] == entries[k + 1];
      if key in FirstOffsets(tail) {
        var k :| 0 <= k < |tail| && AsSigned(tail[k].timestamp) == key;
        assert AsSigned(entries[k + 1].timestamp) == key;
      }
      forall k | 1 <= k < |entries| && AsSigned(entries[k].timestamp) == key
                 && (forall j | 0 <= j < k :: AsSigned(entries[j].timestamp) != key)
        ensures key in FirstOffsets(entries) && FirstOffsets(entries)[key] == entries[k].offset
      {
        assert tail[k - 1] == entries[k];
        assert forall j | 0 <= j < k - 1 :: tail[j] == entries[j + 1];
        assert AsSigned(entries[0].timestamp) != key;
      }
    }
  }

  lemma {:induction false} ReadsEntries(entries: seq<Entry>, mem: seq<Byte>, m: map<int, nat>)
    requires forall e | e in entries :: e.offset < 0x1_0000_0000_0000_0000
    requires |mem| == 16 && AsSigned(FromLittle(mem[..8])) in m
    ensures ReadIndex(IndexBytes(entries), mem, m) == FirstOffsets(entries) + m
    decreases |entries|
  {
    if entries == [] {
      assert [] + mem[0..] == mem;
    } else {
      var e, bytes := entries[0], IndexBytes(entries);
      EntryRoundTrip(e);
      assert bytes[..16] == EntryBytes(e) && bytes[16..] == IndexBytes(entries[1..]);
      ReadsEntries(entries[1..], EntryBytes(e), InsertBytes(m, EntryBytes(e)));
    }
  }

  /** An index cut off inside an entry: what is there of the entry is completed by the memory of the one before it. */
  lemma {:induction false} ReadsTornIndex(entries: seq<Entry>, tail: seq<Byte>, mem: seq<Byte>, m: map<int, nat>)
    requires forall e | e in entries :: e.offset < 0x1_0000_0000_0000_0000
    requires |mem| == 16 && |tail| < 16
    ensures var before := FirstOffsets(entries) + m;
            var last := tail + (if entries == [] then mem else EntryBytes(entries[|entries| - 1]))[|tail|..];
            var key, offset := AsSigned(FromLittle(last[..8])), FromLittle(last[8..]);
            ReadIndex(IndexBytes(entries) + tail, mem, m) == if key in before then before else before[key := offset]
  {
    TornIndex(entries, tail, mem, m);
  }

  lemma {:induction false} TornIndex(entries: seq<Entry>, tail: seq<Byte>, mem: seq<Byte>, m: map<int, nat>)
    requires forall e | e in entries :: e.offset < 0x1_0000_0000_0000_0000
    requires |mem| == 16 && |tail| < 16
    ensures var last := tail + (if entries == [] then mem else EntryBytes(entries[|entries| - 1]))[|tail|..];
            ReadIndex(IndexBytes(entries) + tail, mem, m) == InsertBytes(FirstOffsets(entries) + m, last)
    decreases |entries|
  {
    hide InsertBytes;
    if entries == [] {
      assert [] + tail == tail && map[] + m == m;
    } else {
      hide EntryBytes, IndexBytes, FirstOffsets;
      var e := entries[0];
      FirstRecord(entries, tail);
      InsertedFirst(entries, m);
      TornIndex(entries[1..], tail, EntryBytes(e), InsertBytes(m, EntryBytes(e)));
    }
  }

  lemma {:induction false} FirstRecord(entries: seq<Entry>, tail: seq<Byte>)
    requires entries != []
    ensures var bytes := IndexBytes(entries) + tail;
            |bytes| >= 16 && bytes[..16] == EntryBytes(entries[0]) && bytes[16..] == IndexBytes(entries[1..]) + tail
  {
    hide EntryBytes;
    var first := EntryBytes(entries[0]);
    assert |first| == 16;
    assert IndexBytes(entries) + tail == first + (IndexBytes(entries[1..]) + tail);
  }

  lemma InsertedFirst(entries: seq<Entry>, m: map<int, nat>)
    requires entries != [] && entries[0].offset < 0x1_0000_0000_0000_0000
    ensures FirstOffsets(entries[1..]) + InsertBytes(m, EntryBytes(entries[0])) == FirstOffsets(entries) + m
  {
    EntryRoundTrip(entries[0]);
  }

  lemma EntryRoundTrip(e: Entry)
    requires e.offset < 0x1_0000_0000_0000_0000
    ensures FromLittle(EntryBytes(e)[..8]) == e.timestamp && FromLittle(EntryBytes(e)[8..]) == e.offset
  {
    Little64(e.timestamp);
    Little64(e.offset);
    assert EntryBytes(e)[..8] == ToLittle(e.timestamp, 8) && EntryBytes(e)[8..] == ToLittle(e.offset, 8);
  }

  /** Whatever memory held, a written index reads back as the first offset of each timestamp, exactly when it
      is not empty; an empty index file yields one pair made of uninitialised memory. */
  lemma IndexReadsBackIffNotEmpty(entries: seq<Entry>)
    requires forall e | e in entries :: e.offset < 0x1_0000_0000_0000_0000
    ensures (forall junk: seq<Byte> | |junk| == 16 ::
            ReadIndex(IndexBytes(entries), junk, map[]) == FirstOffsets(entries))
            <==> entries != []
  {
    if entries == [] {
      var junk: seq<Byte> := seq(16, _ => 0);
      assert ReadIndex(IndexBytes(entries), junk, map[]) != map[];
    } else {
      forall junk: seq<Byte> | |junk| == 16
        ensures ReadIndex(IndexBytes(entries), junk, map[]) == FirstOffsets(entries)
      {
        var e, bytes := entries[0], IndexBytes(entries);
        EntryRoundTrip(e);
        assert bytes[..16] == EntryBytes(e) && bytes[16..] == IndexBytes(entries[1..]);
        ReadsEntries(entries[1..], EntryBytes(e), map[AsSigned(e.timestamp) := e.offset]);
      }
    }
  }
}
