/**
 Frames recorded through `DatFileWriter`: each `SaveMetaData(timestamp, frameSize)` paired with one
 serialisation.  Offsets in the index are prefix sums of frame sizes and locate the frames in the raw file.
 */
module Recording {
  import opened Common
  import opened Converter
  import opened DatFile
  import V4L = V4LFrame

  datatype Rec = Rec(timestamp: U64, bytes: seq<Byte>)

  /** The recorded bytes, one frame after another. */
  function Raw(recs: seq<Rec>): seq<Byte> {
    if recs == [] then [] else Raw(recs[..|recs| - 1]) + recs[|recs| - 1].bytes
  }

  /** Each frame's offset is the total size of the frames before it. */
  function Entries(recs: seq<Rec>): (e: seq<Entry>)
    ensures |e| == |recs|
  {
    seq(|recs|, k requires 0 <= k < |recs| => Entry(recs[k].timestamp, |Raw(recs[..k])|))
  }

  /** File contents that were `raw0` and `index0` when opened, and have had `recs` written since. */
  ghost predicate Holds(raw: seq<Byte>, index: seq<Byte>, size: nat, raw0: seq<Byte>, index0: seq<Byte>,
      recs: seq<Rec>) {
    && raw == raw0 + Raw(recs) && index == index0 + IndexBytes(Entries(recs)) && size == |Raw(recs)|
    && forall k | 0 <= k < |recs| :: V4L.IsFrame(recs[k].bytes)
  }

  ghost predicate Recorded(w: DatFileWriter, raw0: seq<Byte>, index0: seq<Byte>, recs: seq<Rec>)
    reads w
  {
    w.filesOpened && Holds(w.rawFile, w.indexFile, w.rawDataStreamSize, raw0, index0, recs)
  }

  lemma {:induction false} HoldsSnoc(raw: seq<Byte>, index: seq<Byte>, size: nat, raw0: seq<Byte>, index0: seq<Byte>,
      recs: seq<Rec>, r: Rec)
    requires Holds(raw, index, size, raw0, index0, recs) && V4L.IsFrame(r.bytes)
    ensures Holds(raw + r.bytes, index + EntryBytes(Entry(r.timestamp, size)),
            size + |r.bytes|, raw0, index0, recs + [r])
  {
    hide V4L.IsFrame, EntryBytes, IndexBytes, Raw, Entries;
    RawSnoc(recs, r);
    IndexBytesSnoc(Entries(recs), Entry(r.timestamp, size));
    assert raw0 + Raw(recs) + r.bytes == raw0 + (Raw(recs) + r.bytes);
    var e, i := EntryBytes(Entry(r.timestamp, size)), IndexBytes(Entries(recs));
    assert index0 + i + e == index0 + (i + e);
  }

  lemma RawNothing()
    ensures Raw([]) == []
  {
  }

  lemma RawSnoc(recs: seq<Rec>, r: Rec)
    ensures Raw(recs + [r]) == Raw(recs) + r.bytes
    ensures Entries(recs + [r]) == Entries(recs) + [Entry(r.timestamp, |Raw(recs)|)]
  {
    assert (recs + [r])[..|recs|] == recs;
    assert forall k | 0 <= k < |recs| :: (recs + [r])[..k] == recs[..k];
  }

  lemma {:induction false} RawPrefix(recs: seq<Rec>, k: nat)
    requires k < |recs|
    ensures |Raw(recs[..k])| + |recs[k].bytes| <= |Raw(recs)|
    ensures Raw(recs)[|Raw(recs[..k])|..|Raw(recs[..k])| + |recs[k].bytes|] == recs[k].bytes
    decreases |recs|
  {
    var n := |recs| - 1;
    if k < n {
      assert recs[..n][..k] == recs[..k];
      RawPrefix(recs[..n], k);
    }
  }

  /** In the raw file the `k`-th frame lies at its recorded offset, counted from where recording began. */
  lemma {:induction false} OffsetLocatesFrame(raw0: seq<Byte>, recs: seq<Rec>, k: nat)
    requires k < |recs| && V4L.IsFrame(recs[k].bytes)
    ensures var raw := raw0 + Raw(recs);
            var at := |raw0| + Entries(recs)[k].offset;
            at <= |raw| && V4L.StartsWithFrame(raw[at..]) && V4L.Decode(raw[at..]) == V4L.Decode(recs[k].bytes)
  {
    hide V4L.Decode, V4L.StartsWithFrame, V4L.FrameSize;
    RawPrefix(recs, k);
    var raw, at, n := raw0 + Raw(recs), |raw0| + |Raw(recs[..k])|, |recs[k].bytes|;
    assert raw[at..][..n] == Raw(recs)[at - |raw0|..at - |raw0| + n] == recs[k].bytes;
    V4L.DecodeLocal(recs[k].bytes, raw[at..]);
  }

  /** So the recorded offsets are positions in the file exactly when it was empty when opened; appending to an
      existing file shifts every one of them. */
  lemma OffsetsArePositionsIffFresh(raw0: seq<Byte>, recs: seq<Rec>)
    requires recs != []
    ensures (forall k | 0 <= k < |recs| :: Entries(recs)[k].offset == |raw0 + Raw(recs[..k])|) <==> raw0 == []
  {
    assert Entries(recs)[0].offset == |Raw(recs[..0])|;
  }

  /** The record carries this timestamp, and a frame that decodes to `d`. */
  ghost predicate Keeps(r: Rec, timestamp: U64, d: V4L.Decoded) {
    r.timestamp == timestamp && V4L.IsFrame(r.bytes) && V4L.Decode(r.bytes) == d
  }

  /** Saves the index entry and then the frame: the recording grows by exactly this frame. */
  method RecordFrame(w: DatFileWriter, f: V4L.Frame, timestamp: U64,
                     ghost raw0: seq<Byte>, ghost index0: seq<Byte>, ghost recs: seq<Rec>) returns (ghost r: Rec)
    requires Recorded(w, raw0, index0, recs) && f.Named() && f.WireSize() < 0x8000_0000
    modifies f`header, w
    ensures Recorded(w, raw0, index0, recs + [r]) && f.Named() && f.WireSize() == old(f.WireSize())
    ensures Keeps(r, timestamp, V4L.Decoded(f.CutFields(), f.body)) && |r.bytes| == f.WireSize()
  {
    hide V4L.Decode, V4L.StartsWithFrame, V4L.FrameSize, V4L.Frame.Named, EntryBytes, Holds;
    var size := |f.body| + |f.header|;
    w.SaveMetaData(timestamp, size);
    var ok := f.SerializeTo(w);
    r := Rec(timestamp, f.header + f.body);
    HoldsSnoc(old(w.rawFile), old(w.indexFile), old(w.rawDataStreamSize), raw0, index0, recs, r);
  }

  /** Every frame is recorded once, in order, under its timestamp. */
  method WriteAll(w: DatFileWriter, frames: seq<V4L.Frame>, stamps: seq<U64>) returns (ghost recs: seq<Rec>)
    requires |frames| == |stamps| && Recorded(w, [], [], [])
    requires forall f | f in frames :: f.Named() && f.WireSize() < 0x8000_0000
    modifies frames, w
    ensures |recs| == |frames| && Recorded(w, [], [], recs) && |Raw(recs)| <= |frames| * 0x8000_0000
    ensures forall k | 0 <= k < |frames| ::
              Keeps(recs[k], stamps[k], old(V4L.Decoded(frames[k].CutFields(), frames[k].body)))
  {
    hide V4L.Decode, V4L.StartsWithFrame, V4L.FrameSize, V4L.Frame.Named, Recorded, Keeps, Raw, Entries;
    recs := [];
    RawNothing();
    for i := 0 to |frames|
      invariant |recs| == i && Recorded(w, [], [], recs) && |Raw(recs)| <= i * 0x8000_0000
      invariant forall f | f in frames :: f.Named() && f.WireSize() < 0x8000_0000
      invariant forall f | f in frames :: f.CutFields() == old(f.CutFields()) && f.body == old(f.body)
      invariant forall k | 0 <= k < i ::
                  Keeps(recs[k], stamps[k], old(V4L.Decoded(frames[k].CutFields(), frames[k].body)))
    {
      ghost var r := RecordFrame(w, frames[i], stamps[i], [], [], recs);
      RawSnoc(recs, r);
      recs := recs + [r];
    }
  }

  /** At every offset of the index, the raw file holds the frame recorded there. */
  ghost predicate Locates(raw: seq<Byte>, entries: seq<Entry>, recs: seq<Rec>) {
    && |entries| == |recs|
    && forall k | 0 <= k < |recs| ::
         && entries[k].timestamp == recs[k].timestamp && entries[k].offset <= |raw|
         && V4L.StartsWithFrame(raw[entries[k].offset..]) && V4L.StartsWithFrame(recs[k].bytes)
         && V4L.Decode(raw[entries[k].offset..]) == V4L.Decode(recs[k].bytes)
  }

  lemma {:induction false} AllLocated(recs: seq<Rec>)
    requires forall k | 0 <= k < |recs| :: V4L.IsFrame(recs[k].bytes)
    ensures Locates(Raw(recs), Entries(recs), recs) && forall e | e in Entries(recs) :: e.offset <= |Raw(recs)|
  {
    hide V4L.Decode, V4L.StartsWithFrame, V4L.FrameSize;
    forall k | 0 <= k < |recs|
      ensures V4L.IsFrame(recs[k].bytes)
      ensures Entries(recs)[k].offset <= |Raw(recs)| && V4L.StartsWithFrame(Raw(recs)[Entries(recs)[k].offset..])
      ensures V4L.Decode(Raw(recs)[Entries(recs)[k].offset..]) == V4L.Decode(recs[k].bytes)
    {
      OffsetLocatesFrame([], recs, k);
      assert [] + Raw(recs) == Raw(recs);
    }
  }

  /** Recording frames to freshly truncated files and reading the index back yields, for every timestamp, the
      offset of its first frame; and at every offset the frame written there is read. */
  method RecordAll(frames: seq<V4L.Frame>, stamps: seq<U64>, oldRaw: seq<Byte>, oldIndex: seq<Byte>, junk: seq<Byte>)
    returns (raw: seq<Byte>, offsets: map<int, nat>, ghost recs: seq<Rec>)
    requires |frames| == |stamps| && 0 < |frames| <= 0x1_0000_0000 && |junk| == 16
    requires forall f | f in frames :: f.Named() && f.WireSize() < 0x8000_0000
    modifies frames
    ensures |recs| == |frames| && offsets == FirstOffsets(Entries(recs)) && Locates(raw, Entries(recs), recs)
    ensures forall k | 0 <= k < |frames| ::
              Keeps(recs[k], stamps[k], old(V4L.Decoded(frames[k].CutFields(), frames[k].body)))
  {
    hide V4L.Decode, V4L.StartsWithFrame, V4L.FrameSize, V4L.Frame.Named, EntryBytes, IndexBytes, Keeps, Locates;
    var w := new DatFileWriter(oldRaw, oldIndex, Truncate);
    var _ := w.OpenFiles();
    assert Entries([]) == [];
    assert IndexBytes([]) == [];
    recs := WriteAll(w, frames, stamps);
    raw := w.rawFile;
    AllLocated(recs);
    assert raw == Raw(recs) && w.indexFile == IndexBytes(Entries(recs));
    IndexReadsBackIffNotEmpty(Entries(recs));
    offsets := ReadIndicies(w.indexFile, junk);
  }
}
