# MLCommon, verified

MLCommon is a C++ support library (hashing, frame streaming, timers, IPC, a small state-machine engine) with a
deployment agent beside it.  This project models the parts of it that carry algorithms or protocols, in Dafny, and
proves what they are for.

| file | models |
|---|---|
| `common.dfy`, `arithmetic.dfy` | types several parts share; products and quotients of variables |
| `md5_spec.dfy` | RFC 1321 as the standard writes it: padding, table-driven compression, digest |
| `md5_words.dfy` | what the word operations, steps, padding and digest of MD5 are in arithmetic and bit by bit |
| `md5.dfy` | the incremental MD5 object: buffer filled in place, 64-bit counter in two words, unrolled rounds |
| `converter.dfy` | big-endian fields inside a header, padding, little-endian numbers of files and records |
| `v4l_frame.dfy` | the video frame: printer, blocking parser, resumable parser, and streams of frames |
| `dat_file.dfy`, `recording.dfy` | raw file and index file, the writer, the index reader, whole recordings |
| `fsm_handler.dfy` | the table-driven run-to-completion engine with `ANY_EVENT` chains and owned parameters |
| `timer.dfy` | the abort-mutex handshake between a timer and its thread |
| `worker.dfy`, `worker_runs.dfy` | the worker's timer list and dispatcher; all interleavings with timer threads and posts |
| `worker_origins.dfy` | which timer's run a dispatched callback comes from |
| `ipc.dfy` | client lists, the epoll interest set kept by differences, purging of clients that hung up |
| `ipc_transmitter.dfy` | the multicast queue; all interleavings with joins, leaves and write failures |
| `folder_monitor.dfy` | inotify records, watched files, announcements |
| `sliding_window.dfy` | the bounded-history reader |

Objects whose methods update fields are classes; their methods are proved against functions of the old state, and
what the library promises is proved of those functions.  Protocols between threads are, in addition, transition
systems: a run is any sequence of enabled steps from the initial state, and the main results hold for every run.

Bytes are integers below 256, words integers below 2^32, and every wrap-around is written out.  A byte source is its
data and a script saying how each `Read` behaves (bytes it is willing to give, 0 for nothing, negative for an error);
a clock is a function of the number of readings taken; a write succeeds or fails as a function of how many came before.
The functions that specifications are written with are described apart from themselves as well: rotations and fields as
products and quotients, masks as remainders, table scans and event programs on the table and the list.
MD5 words combine bit by bit from their binary digits, so no machine word type is assumed.

Where the code does not do what one would expect:

- `MD5::update` compares `i + blocksize <= length` in 32 bits.  `Md5.GuardExactIffLengthFits` gives the lengths for
  which that comparison is the intended one; for all others the loop reads past its input.
- The free function `md5` passes a text's length through 32 bits: of a text of 2^32 bytes or more it hashes the first
  length modulo 2^32 (`Md5.Md5Text`).
- Appending to existing files makes every offset of the index too small by the old size
  (`Recording.OffsetsArePositionsIffFresh`).
- `ReadIndicies` notices the end of the file one record late.  A written index is read back correctly exactly when it
  is not empty; an empty one gives one pair of uninitialised memory (`DatFile.IndexReadsBackIffNotEmpty`).
- An `ANY_EVENT` chain whose guards all refuse makes the drain loop spin (`Fsm.RefusedChainLoops`); with descending
  rows and guards that only look, that is the only way not to finish (`Fsm.CompletesIffNeverRefused`).
- A callback that is still queued when its timer is replaced is credited to the replacement
  (`WorkerRuns.StaleCallbackReachesReplacement`).  When callback events come from timer threads only, a dispatched
  callback belongs to the timer it reaches exactly when none of the callbacks queued at that timer's start is left
  (`WorkerOrigins.OwnCallbackIff`); so callbacks run for their own interval only, in every run that starts no timer
  while a callback for its id is queued (`WorkerOrigins.OwnIntervalOnly`).
- A descriptor listed under two socket names can be lost to epoll (`Ipc.TwoNamesLoseAClient`).  `Ipc.InStepIff` says
  exactly when one validation leaves the right interest set, and `Ipc.IpcReceiver.ValidateEPoll` exactly when none of
  its kernel calls fails.
- A path created twice without being deleted is listed twice, and events reach only the first listing, so it can be
  announced while open (`FolderMonitors.DoubleCreationBreaksIt`).  `FolderMonitors.ProcessJustifiedIff` says exactly
  when one `process` announces rightly, and `FolderMonitors.JustifiedIffClean` that a run and all that may follow it
  announce rightly exactly when the run creates no path that is still listed.

## Model

| member | source | states |
|---|---|---|
| `Md5Spec.LoadWordIsOr` | MLCommon/src/Tools/MD5.cpp:132-136 | or-ing four bytes shifted into place, as the C++ does, is the little-endian value of the four bytes |
| `Md5Spec.LoadStore` | MLCommon/src/Tools/MD5.cpp:132-149 | a word is loaded from four bytes if and only if they are the four bytes it is stored as |
| `Md5Spec.DecodeEncode` | MLCommon/src/Tools/MD5.cpp:132-149 | decoding undoes encoding, for any number of words |
| `Md5Spec.EncodeDecode` | MLCommon/src/Tools/MD5.cpp:132-149 | encoding undoes decoding, for any whole number of words |
| `Md5Words.RotateLeftIs` | MLCommon/src/Tools/MD5.cpp:73-75 | rotating left by n is the product with 2^n modulo 2^32 plus the quotient by 2^(32-n): every bit moves up n places and the top n come in at the bottom |
| `Md5Words.ShiftRightIs` | MLCommon/src/Tools/MD5.cpp:74 | shifting right by n divides by 2^n |
| `Md5Words.FBits` | MLCommon/src/Tools/MD5.cpp:60-62 | bit k of F is bit k of y where x has a one and of z where it has a zero |
| `Md5Words.GBits` | MLCommon/src/Tools/MD5.cpp:64-66 | bit k of G is bit k of x where z has a one and of y where it has a zero |
| `Md5Words.HBits` | MLCommon/src/Tools/MD5.cpp:68 | bit k of H is the sum of the three bits modulo 2 |
| `Md5Words.IBits` | MLCommon/src/Tools/MD5.cpp:70 | bit k of I is the complement of y where x has a one or z a zero, and y elsewhere |
| `Md5Words.SameBits` | MLCommon/src/Tools/MD5.cpp:60-70 | words that agree in every bit are equal, so the four laws above determine F, G, H and I |
| `Md5Words.StepIs` | MLCommon/src/Tools/MD5.cpp:79-97 | a step adds register, round function, the word its round assigns and the constant modulo 2^32, rotates by the amount its round assigns, adds the next register, and moves the registers on one place; all in arithmetic |
| `Md5.Decode` | MLCommon/src/Tools/MD5.cpp:132-136 | the output array's front becomes the little-endian words of the input slice, the rest is untouched |
| `Md5.Encode` | MLCommon/src/Tools/MD5.cpp:142-149 | the output array's front becomes the little-endian bytes of the words, the rest is untouched |
| `Md5.FF` | MLCommon/src/Tools/MD5.cpp:79-82 | with the word, shift and sine constant that RFC 1321 assigns to its step, it is that step of the table-driven run with the registers renamed |
| `Md5.GG` | MLCommon/src/Tools/MD5.cpp:84-87 | the same for the steps of round 2, whose word index is 5i+1 mod 16 |
| `Md5.HH` | MLCommon/src/Tools/MD5.cpp:89-92 | the same for the steps of round 3, whose word index is 3i+5 mod 16 |
| `Md5.II` | MLCommon/src/Tools/MD5.cpp:94-97 | the same for the steps of round 4, whose word index is 7i mod 16 |
| `Md5.Rounds` | MLCommon/src/Tools/MD5.cpp:158-228 | the 64 unrolled calls with rotating register roles equal the 64-step table-driven loop of section 3.4 of RFC 1321, for every state and block; `StepIs` says what a step is |
| `Md5.MD5.Transform` | MLCommon/src/Tools/MD5.cpp:154-237 | the state words become the RFC compression of the old ones with the block, final additions modulo 2^32 included |
| `Md5Words.CompressIs` | MLCommon/src/Tools/MD5.cpp:230-233 | compression adds each register after 64 steps to the old one modulo 2^32 |
| `Md5Words.InitialBytes` | MLCommon/src/Tools/MD5.cpp:122-125 | the four magic words hold the bytes RFC 1321 lists for A, B, C and D |
| `Md5Spec.FoldOne` | MLCommon/src/Tools/MD5.cpp:256-266 | folding over no block changes nothing, over one block applies the block function to the first 64 bytes |
| `Md5Spec.FoldConcat` | MLCommon/src/Tools/MD5.cpp:256-266 | folding a block function over a message cut at a block boundary is folding over the first part and then over the second |
| `Md5.CounterAdds` | MLCommon/src/Tools/MD5.cpp:247-249 | if the two counter words hold 8n modulo 2^64, after adding a length with the carry they hold 8(n + length) modulo 2^64 |
| `Md5.IndexFromCounter` | MLCommon/src/Tools/MD5.cpp:244-245 | the number of buffered bytes read off the low counter word is the message length modulo 64, although that word wraps |
| `Md5.MD5.TakeIndexAndCount` | MLCommon/src/Tools/MD5.cpp:244-249 | reads the buffered count off the counter and advances the counter to the new total length |
| `Md5.GuardExactIffLengthFits` | MLCommon/src/Tools/MD5.cpp:263-264 | the loop guard computed in 32 bits is the intended comparison at every block boundary if and only if the length fits the stated bound |
| `Md5.MD5.TransformBlocks` | MLCommon/src/Tools/MD5.cpp:262-264 | the loop compresses exactly the whole blocks of the input and stops less than 64 bytes before its end |
| `Md5.MD5.FillAndTransform` | MLCommon/src/Tools/MD5.cpp:257-266 | after filling the buffer and the block loop the state is the fold over all whole blocks seen and the rest of the input is less than a block |
| `Md5.MD5.KeepRest` | MLCommon/src/Tools/MD5.cpp:270-271 | the buffer's front becomes the message beyond its whole blocks |
| `Md5.MD5.Init` | MLCommon/src/Tools/MD5.cpp:115-126 | counter, state and buffer describe the empty message |
| `Md5.MD5.Update` | MLCommon/src/Tools/MD5.cpp:243-272 | keeps: counter words hold the bit length modulo 2^64, state is the fold over all whole blocks seen, the buffer's front is the message tail; and the message grows by exactly the input |
| `Md5Spec.PadLengthUnique` | MLCommon/src/Tools/MD5.cpp:296-299 | the padding length is the only number from 1 to 64 that brings the message to 56 modulo 64, which is how section 3.1 of RFC 1321 defines it |
| `Md5Words.PadIs` | MLCommon/src/Tools/MD5.cpp:286-302 | the padded message is the message, 0x80, the fewest zeros that leave eight bytes to a whole number of blocks, and there the bytes of the length in bits, least significant first |
| `Md5Words.DigestIs` | MLCommon/src/Tools/MD5.cpp:304-305 | the digest is the four registers in order, each byte a quotient and remainder of its register, least significant first |
| `Md5.MD5.UpdatePadding` | MLCommon/src/Tools/MD5.cpp:286-302 | the two padding updates extend the message to the padded message of sections 3.1 and 3.2, with the length it had before |
| `Md5.MD5.Finalize` | MLCommon/src/Tools/MD5.cpp:285-315 | leaves the RFC 1321 digest of the message; a second call leaves digest and message unchanged |
| `Md5.MD5.HexDigest` | MLCommon/src/Tools/MD5.cpp:320-328 | the hexadecimal text of the digest of the message, or nothing before finalization |
| `Md5.HexDigits` | MLCommon/src/Tools/MD5.cpp:324 | each byte gives two digits of 0123456789abcdef, the high four bits first |
| `Md5.HexInjective` | MLCommon/src/Tools/MD5.cpp:320-328 | different digests never share a hexadecimal text |
| `Md5.DigestInChunks` | MLCommon/src/Tools/MD5.cpp:243-315 | for every message and every way of cutting it into updates of fitting length, and any number of further finalizations, the digest is the RFC 1321 digest of the whole message, whose parts `PadIs`, `FoldOne`, `FoldConcat`, `CompressIs`, `StepIs` and `DigestIs` describe |
| `Md5.Md5Text` | MLCommon/src/Tools/MD5.cpp:338-342 | the one-call form returns the hexadecimal RFC 1321 digest of as much of the text as its length modulo 2^32 says, which is the whole text below 2^32 bytes |
| `Converter.SetU32` | MLCommon/src/Converter/converterutils.cpp:9-15 | the field reads back as the value written and no byte outside its four moves |
| `Converter.SetU64` | MLCommon/src/Converter/converterutils.cpp:23-27 | the field reads back as the value written and no byte outside its eight moves |
| `Converter.ComposeSplit` | MLCommon/src/Converter/converterutils.cpp:29-35 | four bytes cut from a word compose to it again |
| `Converter.BigEndian32` | MLCommon/src/Converter/converterutils.cpp:29-35 | a 32-bit field has its most significant byte first: each byte is the quotient and remainder of the value that its place says |
| `Converter.BigEndian64` | MLCommon/src/Converter/converterutils.cpp:37-40 | a 64-bit field has its upper half first |
| `Converter.PaddedSize` | MLCommon/inc/Converter/converterutils.h:13-16 | the least multiple of four not below the size |
| `Converter.LittleRoundTrip` | MLCommon/src/SensorData/DatFile/DatFileWriter.cpp:64-65 | a number that fits its memory is read back from the bytes it was written as |
| `Converter.LittleByte` | MLCommon/src/SensorData/DatFile/DatFileWriter.cpp:64-65 | byte k of a number in a file is its quotient by 256^k modulo 256 |
| `V4LFrame.FillupBuffer` | MLCommon/src/SensorData/Frame/V4LFrame.cpp:9-21 | appends exactly the bytes taken from the stream to the filled part, succeeds if and only if the buffer is full, and stops early only at a read that delivered nothing, every earlier one having delivered something |
| `V4LFrame.DecodeLocal` | MLCommon/src/SensorData/Frame/V4LFrame.cpp:126-170 | what a frame decodes to depends only on the bytes of that frame |
| `V4LFrame.DecodeIs` | MLCommon/src/SensorData/Frame/V4LFrame.cpp:36-80 | which bytes of a well-formed frame hold what: sizes and name length in front, timestamp at 20, name at 28, video fields in the last sixteen header bytes, body after the header |
| `V4LFrame.PartsAreFrame` | MLCommon/src/SensorData/Frame/V4LFrame.cpp:237-256 | a header with these fields in these places, followed by a body, is a frame that decodes to the fields and the body |
| `V4LFrame.Frame.ParseIFrameHeader` | MLCommon/src/SensorData/Frame/V4LFrame.cpp:36-56 | keeps the invariant tying state, accumulated count and filled prefix to the bytes consumed; moves on if and only if the size fields are complete |
| `V4LFrame.Frame.ParseV4LFrameHeader` | MLCommon/src/SensorData/Frame/V4LFrame.cpp:58-80 | keeps that invariant, and once the header is complete all fields are those in it |
| `V4LFrame.Frame.ParseBody` | MLCommon/src/SensorData/Frame/V4LFrame.cpp:97-105 | keeps that invariant, and finishes if and only if the body is full |
| `V4LFrame.Frame.AsyncDeserializeFrom` | MLCommon/src/SensorData/Frame/V4LFrame.cpp:82-110 | from wherever it was interrupted: no byte lost or read twice, completion reported when exactly the frame has been consumed and fields and body are its decoding, an early return only at the first read that delivered nothing, a further call rejected without effect |
| `V4LFrame.Frame.ReadFully` | MLCommon/src/SensorData/Frame/V4LFrame.cpp:162-170 | reads exactly what is missing over any chunking, or stops at the first read that fails; it never reads more often than it gets bytes, but for one read of nothing or the failing one |
| `V4LFrame.Frame.ReadHeader` | MLCommon/src/SensorData/Frame/V4LFrame.cpp:113-145 | obtains exactly the header whose size the first eight bytes announce, or stops at the first read that fails |
| `V4LFrame.Frame.DeserializeFrom` | MLCommon/src/SensorData/Frame/V4LFrame.cpp:112-173 | over any chunking that makes progress consumes exactly one frame and decodes it as the resumable parser does; it gives up only at a read it made, the first to fail |
| `V4LFrame.Frame.SetName` | MLCommon/src/SensorData/Frame/V4LFrame.cpp:181-184 | the header is laid out for the new name, which is all of it up to 63 bytes and its first 63 beyond |
| `V4LFrame.Frame.PrepareHeader` | MLCommon/src/SensorData/Frame/V4LFrame.cpp:214-235 | header size, version, name length and media type are in place, then the name, all of it up to 63 bytes and its first 63 beyond, padded with zeros to a multiple of four with the sixteen video bytes after it |
| `V4LFrame.Frame.UpdateFrame` | MLCommon/src/SensorData/Frame/V4LFrame.cpp:237-256 | header writes never overlap: header and body together are a frame that decodes to the object's timestamp, name (its first 63 bytes if longer), dimensions, format and body |
| `V4LFrame.Frame.SerializeTo` | MLCommon/src/SensorData/Frame/V4LFrame.cpp:27-34 | appends to the file exactly one frame that decodes to the object, and tells truly whether it was written |
| `V4LFrame.FrontFrame` | MLCommon/src/SensorData/Frame/V4LFrame.cpp:82-110 | a complete frame can be split off the front of a stream of frames in one way only |
| `V4LFrame.Poll` | MLCommon/src/SensorData/Frame/V4LFrame.cpp:82-110 | one call inside a stream of frames reads at least once; it completes the first frame and leaves exactly the rest without meeting an empty read, or it stays inside that frame after exactly one empty read |
| `V4LFrame.PollFrames` | MLCommon/src/SensorData/Frame/V4LFrame.cpp:82-110 | for every interleaving of partial and empty reads, back-to-back frames polled with a fresh object each come out in order and unchanged; polls are completed frames plus empty reads, reads are at most the bytes plus empty reads, and the first k frames are out once the stream had something to deliver at as many reads as these frames have bytes |
| `V4LFrame.ReadOne` | MLCommon/src/SensorData/Frame/V4LFrame.cpp:112-173 | one blocking call inside a stream of frames decodes the first of them and leaves exactly the rest, or stops inside it at the first read that fails |
| `V4LFrame.ReadFrames` | MLCommon/src/SensorData/Frame/V4LFrame.cpp:112-173 | the blocking parser decodes the same frames from the same stream: all of them, unless a read it made failed, which is its last and comes within the first frame not decoded |
| `V4LFrame.PrintThenParse` | MLCommon/src/SensorData/Frame/V4LFrame.cpp:27-34 | what is printed parses back over any positive-progress chunking, field by field, to the same timestamp, dimensions, format and body and to the same name (its first 63 bytes if longer), consuming exactly the frame size whatever follows |
| `DatFile.DatFileWriter.OpenFiles` | MLCommon/src/SensorData/DatFile/DatFileWriter.cpp:28-54 | truncation empties both files once; appending or a second call leaves them as they are |
| `DatFile.DatFileWriter.SaveMetaData` | MLCommon/src/SensorData/DatFile/DatFileWriter.cpp:56-67 | one index entry holding the offset so far is appended and the offset grows by the frame size; without open files nothing changes |
| `DatFile.DatFileWriter.Write` | MLCommon/src/SensorData/DatFile/DatFileWriter.cpp:74-92 | the raw file grows by exactly the data and the size cast to `int` is returned, or the call reports -1 and changes nothing |
| `DatFile.AsInt` | MLCommon/src/SensorData/DatFile/DatFileWriter.cpp:91 | the returned count is the signed 32-bit number congruent to the size modulo 2^32, and the size itself if and only if that is below 2^31 |
| `DatFile.ReadIndicies` | MLCommon/src/SensorData/DatFile/DatFileReader.cpp:160-169 | two short-read-aware reads and an insertion per turn compute the map that `IndexReadsBackIffNotEmpty` and `FirstOffsetsLeast` characterise |
| `DatFile.EntryRoundTrip` | MLCommon/src/SensorData/DatFile/DatFileWriter.cpp:64-65 | timestamp and offset are read back from the sixteen bytes of an entry |
| `DatFile.EntryByte` | MLCommon/src/SensorData/DatFile/DatFileWriter.cpp:64-65 | an entry is the eight bytes of the timestamp and then the eight of the offset, each least significant first |
| `DatFile.AsSigned` | MLCommon/src/SensorData/DatFile/DatFileReader.cpp:160-168 | a timestamp is read back as the signed 64-bit number congruent to it modulo 2^64 |
| `DatFile.ReadsTornIndex` | MLCommon/src/SensorData/DatFile/DatFileReader.cpp:160-169 | an index cut off inside an entry also gives the pair made of what is there of that entry and the memory of the one before, unless its timestamp is in the map already |
| `DatFile.FirstOffsetsLeast` | MLCommon/src/SensorData/DatFile/DatFileReader.cpp:168 | the map holds exactly the recorded timestamps, each with the offset of its first entry |
| `DatFile.ReadsEntries` | MLCommon/src/SensorData/DatFile/DatFileReader.cpp:160-169 | reading a written index yields the first offset of each timestamp, although the end of the file is noticed one insertion late |
| `DatFile.IndexReadsBackIffNotEmpty` | MLCommon/src/SensorData/DatFile/DatFileReader.cpp:160-169 | whatever the uninitialised memory held, a written index reads back as the first offset of each timestamp if and only if it is not empty |
| `Recording.RecordFrame` | MLCommon/src/SensorData/DatFile/DatFileWriter.cpp:56-92 | saving meta data and printing the frame extends the recording by exactly that frame |
| `Recording.OffsetLocatesFrame` | MLCommon/src/SensorData/DatFile/DatFileWriter.cpp:64-66 | at a frame's recorded offset, counted from where recording began, the raw file decodes to that frame whatever follows |
| `Recording.OffsetsArePositionsIffFresh` | MLCommon/src/SensorData/DatFile/DatFileWriter.cpp:36-42 | recorded offsets are positions in the raw file if and only if the file was empty when opened |
| `Recording.WriteAll` | MLCommon/src/SensorData/DatFile/DatFileWriter.cpp:56-92 | every frame is recorded once, in order, under its timestamp, and decodes to what it held before |
| `Recording.AllLocated` | MLCommon/src/SensorData/DatFile/DatFileWriter.cpp:64-66 | offsets are prefix sums of the frame sizes: every index entry locates its frame |
| `Recording.RecordAll` | MLCommon/src/SensorData/DatFile/DatFileWriter.cpp:28-92 | recording to truncated files and reading the index back gives the first offset of each timestamp, and every offset locates its frame |
| `Fsm.ScanRefusesIff` | MLCommon/inc/Stm/FsmHandler.h:142-181 | with guards that only look, a row fires if and only if some row has this state and event and no guard or one that accepts; otherwise state and data stay |
| `Fsm.ScanTakesLowest` | MLCommon/inc/Stm/FsmHandler.h:142-181 | and the row that fires is the one with the lowest index among these: its next state, its action on the data |
| `Fsm.ScanFollowsARow` | MLCommon/inc/Stm/FsmHandler.h:142-181 | for any guards, an event that is taken leads along a row of the table whose start is the state and whose event is the event |
| `Fsm.ScanIsTrial` | MLCommon/inc/Stm/FsmHandler.h:142-181 | for any guards, on the table alone: rows for this state and event are tried in order, each refusing guard leaves the data it returned and its log entry, and the first that accepts acts on the data its guard left and gives the next state; when all refuse, what the guards left stays |
| `Fsm.NoRowNoChange` | MLCommon/inc/Stm/FsmHandler.h:142-181 | an event for which the state has no row changes neither state, data nor log, whatever the guards of other rows |
| `Fsm.RunUnfolds` | MLCommon/inc/Stm/FsmHandler.h:97-139 | running an event is processing it and, while the state has an `ANY_EVENT` row, running `ANY_EVENT` with the same parameter; only then is the parameter deleted |
| `Fsm.RunSettles` | MLCommon/inc/Stm/FsmHandler.h:113-117 | no run ends in a state that has an `ANY_EVENT` row |
| `Fsm.FoldSnoc` | MLCommon/inc/Stm/FsmHandler.h:184-194 | an empty queue changes nothing, and queueing one more event is the same as firing it after the others have drained |
| `Fsm.DrainedStateIsSettled` | MLCommon/inc/Stm/FsmHandler.h:97-121 | after draining a non-empty queue the state has no outgoing `ANY_EVENT` row |
| `Fsm.TurnKeepsFold` | MLCommon/inc/Stm/FsmHandler.h:99-120 | a turn of the loop changes neither whether the queue completes nor the fold it computes |
| `Fsm.LoopIsFold` | MLCommon/inc/Stm/FsmHandler.h:97-121 | the loop empties the queue after finitely many turns if and only if every queued event completes, and then it has computed the left fold |
| `Fsm.RankedTableDrains` | MLCommon/inc/Stm/FsmHandler.h:97-139 | when every state with `ANY_EVENT` rows always has one that fires and those rows lower a rank, every queue drains from every context |
| `Fsm.RefusedChainLoops` | MLCommon/inc/Stm/FsmHandler.h:97-139 | when all `ANY_EVENT` guards of the state refuse without effect, state, data and queue repeat for ever |
| `Fsm.CompletesIffNeverRefused` | MLCommon/inc/Stm/FsmHandler.h:97-139 | with descending `ANY_EVENT` rows and guards that only look, an event completes if and only if its chain never meets a state whose `ANY_EVENT` rows all refuse |
| `Fsm.RunLife` | MLCommon/inc/Stm/FsmHandler.h:111-119 | one run logs only guards and actions with its parameter and then its one deletion |
| `Fsm.ParametersDieOnce` | MLCommon/inc/Stm/FsmHandler.h:99-139 | draining deletes each queued parameter exactly once, after its last guard or action, and mentions no other, so none is live afterwards |
| `Fsm.FsmHandler.Initialize` | MLCommon/inc/Stm/FsmHandler.h:58-68 | sets the state and leaves machine and queue alone |
| `Fsm.FsmHandler.ProcessEvent` | MLCommon/inc/Stm/FsmHandler.h:142-181 | the scan loop with guards that may change the machine ends as a trial of the table ends; a taken event leads along a row of this state and event, a refused one keeps the state, and one without a row changes nothing |
| `Fsm.FsmHandler.PushAnyIfGuard` | MLCommon/inc/Stm/FsmHandler.h:123-139 | queues `ANY_EVENT` in front with the same parameter if and only if the state has an `ANY_EVENT` row |
| `Fsm.FsmHandler.RunStateMachine` | MLCommon/inc/Stm/FsmHandler.h:96-121 | drains the queue, computing the left fold of running each event to completion, whenever that fold exists |
| `Fsm.FsmHandler.FireEvent` | MLCommon/inc/Stm/FsmHandler.h:183-200 | runs the event to completion; before initialization it changes nothing and does not delete the parameter |
| `Fsm.FireAll` | MLCommon/inc/Stm/FsmHandler.h:183-200 | firing events one call at a time computes the fold of the whole list and deletes every parameter once, after its last use |
| `Timers.Timer.constructor` | MLCommon/src/TimerFramework/Timer.cpp:12-26 | a new timer is idle: not running, no thread, nothing posted |
| `Timers.Timer.Start` | MLCommon/src/TimerFramework/Timer.cpp:42-60 | takes the start step of the handshake, spelled out for a running timer, a new thread and a thread not yet joined, and refuses exactly when running |
| `Timers.Timer.RunStep` | MLCommon/src/TimerFramework/Timer.cpp:82-98 | each step of the thread is a step of the handshake; it posts exactly after timing out |
| `Timers.Timer.Stop` | MLCommon/src/TimerFramework/Timer.cpp:62-75 | stops a live timer: the run is aborted if still asleep, has posted once if its interval had passed, and nothing is left to post |
| `Timers.StepKeepsConsistent` | MLCommon/src/TimerFramework/Timer.cpp:42-98 | every run is accounted for; from start to stop the flag is held, so the thread cannot acquire it and only times out |
| `Timers.EveryRunPostsOnceOrAborts` | MLCommon/src/TimerFramework/Timer.cpp:42-98 | over any number of start and stop rounds, each run posts at most once, and when a stop has returned each run has posted exactly once or been aborted and no thread step is possible |
| `Timers.StopAbortsOrFindsPosted` | MLCommon/src/TimerFramework/Timer.cpp:62-75 | for every interleaving of thread steps between unlock and join, stop aborts the run exactly if it was still asleep and otherwise finds it posted |
| `Timers.LiveThreadPostsExactlyOnce` | MLCommon/src/TimerFramework/Timer.cpp:82-98 | a live timer's thread can only time out, then post once, then nothing |
| `Workers.FindSpec` | MLCommon/src/TimerFramework/Worker.cpp:228-243 | the search finds the first listed timer with the id, or none is listed |
| `Workers.WithoutSpec` | MLCommon/src/TimerFramework/Worker.cpp:264-284 | removal keeps ids nonzero and distinct and removes exactly the timers with that id |
| `Workers.WithoutAt` | MLCommon/src/TimerFramework/Worker.cpp:264-284 | it is the first timer with the id that is taken out |
| `Workers.WithSpec` | MLCommon/src/TimerFramework/Worker.cpp:245-262 | addition keeps ids nonzero and distinct; it appends a timer with a new nonzero id and refuses id zero and an id already listed |
| `Workers.CallbackProgram` | MLCommon/src/TimerFramework/Worker.cpp:320-339 | a callback for a listed cyclic timer leaves the list as it was and calls invoke, stop, start; for a one-shot timer it takes it out and calls invoke, stop |
| `Workers.StopProgram` | MLCommon/src/TimerFramework/Worker.cpp:304-318 | a stop takes the listed timer out and calls stop |
| `Workers.StartProgram` | MLCommon/src/TimerFramework/Worker.cpp:286-302 | a start for a listed id stops the holder and takes it out, lists the new timer last and starts it |
| `Workers.AbsentProgram` | MLCommon/src/TimerFramework/Worker.cpp:286-339 | for an id not listed, callback and stop do nothing; a start lists the timer last, unless its id is zero, and starts it |
| `Workers.Worker.SendEvent` | MLCommon/src/TimerFramework/Worker.cpp:27-43 | appends the event, or drops it when there is no worker thread |
| `Workers.Worker.GetTimer` | MLCommon/src/TimerFramework/Worker.cpp:228-243 | the loop returns the first listed timer with the id |
| `Workers.Worker.AddTimer` | MLCommon/src/TimerFramework/Worker.cpp:245-262 | reports exactly whether the list changed |
| `Workers.Worker.RemoveTimer` | MLCommon/src/TimerFramework/Worker.cpp:264-284 | erases the first timer with the id and reports whether there was one |
| `Workers.Worker.StopTimer` | MLCommon/src/TimerFramework/Worker.cpp:304-318 | stops the timer object and then removes it, or does nothing when none is listed |
| `Workers.Worker.StartTimer` | MLCommon/src/TimerFramework/Worker.cpp:286-302 | what a dispatched start does to list and timer objects, in order: the old holder of the id stopped and removed, the new one listed and started |
| `Workers.Worker.HandleCallback` | MLCommon/src/TimerFramework/Worker.cpp:320-339 | what a dispatched callback does, in order: invoke, then stop and drop a one-shot timer, or stop and start a cyclic one and leave the list as it is |
| `Workers.Worker.DispatchOne` | MLCommon/src/TimerFramework/Worker.cpp:69-111 | pops the front event and executes exactly its program, spelled out for starts, stops, callbacks and other events |
| `WorkerRuns.StepKeepsSound` | MLCommon/src/TimerFramework/Worker.cpp:50-114 | every step keeps: distinct nonzero ids, every listed timer live except the one being handled, waiting timers new |
| `WorkerRuns.StepKeepsConserved` | MLCommon/src/TimerFramework/Worker.cpp:320-339 | callback events are conserved between posting and dispatching, and a callback runs only for a dispatched one |
| `WorkerRuns.StepKeepsOnce` | MLCommon/src/TimerFramework/Worker.cpp:326-331 | a one-shot timer's callback has run at most once, and not at all while it is listed and not being handled |
| `WorkerRuns.StepKeepsSilent` | MLCommon/src/TimerFramework/Worker.cpp:286-318 | no callback runs for an id while the last start or stop dispatched for it is a stop |
| `WorkerRuns.RunKeepsGood` | MLCommon/src/TimerFramework/Worker.cpp:50-114 | all of these hold after every run |
| `WorkerRuns.EveryRunIsSafe` | MLCommon/src/TimerFramework/Worker.cpp:50-114 | in every interleaving from the empty worker: distinct nonzero ids, every listed timer live between events, one-shot callbacks at most once, no more invocations than posted callback events, silence after a stop |
| `WorkerRuns.StopSilencesUntilStart` | MLCommon/src/TimerFramework/Worker.cpp:304-318 | between a dispatched stop and a later invocation of the same id lies a dispatched start of it |
| `WorkerRuns.ProgramRunsAsDispatched` | MLCommon/src/TimerFramework/Worker.cpp:50-114 | however timer threads and posts interleave with an event's program, the list it leaves and the calls it makes on timers, in order, are those of the dispatcher alone |
| `WorkerRuns.CyclicGoesOn` | MLCommon/src/TimerFramework/Worker.cpp:333-337 | in every run a listed cyclic timer stays listed, and running whenever the dispatcher is between events, until a start or stop of its id is dispatched |
| `WorkerRuns.CallbackRestartsCyclic` | MLCommon/src/TimerFramework/Worker.cpp:320-339 | however posts and timer threads interleave, once a callback for a listed cyclic timer is handled the list is unchanged, the timer was called back, stopped and started, and it runs again with one more start |
| `WorkerRuns.StartLists` | MLCommon/src/TimerFramework/Worker.cpp:286-302 | once a start is handled the timer is listed and running, unless its id is zero |
| `WorkerRuns.ProgramCanFinish` | MLCommon/src/TimerFramework/Worker.cpp:50-114 | every program of an event can be brought to its end: no join waits for a thread that cannot finish |
| `WorkerRuns.StaleCallbackReachesReplacement` | MLCommon/src/TimerFramework/Worker.cpp:286-339 | a run exists in which a timer's callback is invoked while its own thread still sleeps and has posted nothing |
| `WorkerOrigins.StepKeepsTraced` | MLCommon/src/TimerFramework/Worker.cpp:286-339 | every step keeps: threads that may still post belong to listed timers, and callbacks queued for a listed timer since it was begun are its own |
| `WorkerOrigins.OwnCallbackIff` | MLCommon/src/TimerFramework/Worker.cpp:320-326 | in every run whose callback events come from timer threads, a callback dispatched to a listed timer was posted by its current run if and only if none of the callbacks queued when it was begun is still queued; then its own interval has passed |
| `WorkerOrigins.OwnIntervalOnly` | MLCommon/src/TimerFramework/Worker.cpp:320-326 | if, besides, no timer is ever begun while a callback for its id is queued, every callback is invoked only after its timer's own interval |
| `Ipc.EraseSpec` | MLCommon/inc/Network/Ipc/IIpcSocket.h:45-52 | in a list without duplicates, erasing one occurrence removes exactly that client |
| `Ipc.EraseFirst` | MLCommon/inc/Network/Ipc/IIpcSocket.h:45-52 | it is the first occurrence that is erased |
| `Ipc.IpcSocket.AddClientDescriptor` | MLCommon/inc/Network/Ipc/IIpcSocket.h:36-43 | a client already listed changes nothing, any other is appended; so the list never has duplicates |
| `Ipc.IpcSocket.RemoveClientDescriptor` | MLCommon/inc/Network/Ipc/IIpcSocket.h:45-52 | the search and erase loop takes out the first occurrence, and nothing when there is none |
| `Ipc.IpcSocket.ClearClientsDescriptor` | MLCommon/inc/Network/Ipc/IIpcSocket.h:54-57 | the list is empty |
| `Ipc.EPoll.Add` | MLCommon/inc/Network/Unix/EPoolWorker.h:76-87 | fails exactly on a registered descriptor |
| `Ipc.EPoll.Remove` | MLCommon/inc/Network/Unix/EPoolWorker.h:102-110 | fails exactly on an unregistered descriptor |
| `Ipc.InStepIff` | MLCommon/src/Network/Unix/IpcReceiverUnix.cpp:105-130 | as far as the interest set goes: starting in step, removals before additions leave it equal to the current descriptors if and only if every descriptor that loses a name while still current also gains one |
| `Ipc.OneNameStaysInStep` | MLCommon/src/Network/Unix/IpcReceiverUnix.cpp:105-130 | snapshots that give each descriptor one name meet that condition and the one for kernel calls, even when a descriptor moves between sockets |
| `Ipc.TwoNamesLoseAClient` | MLCommon/src/Network/Unix/IpcReceiverUnix.cpp:105-130 | a descriptor that drops one of its two names is current and not registered |
| `Ipc.IpcReceiver.CollectDescriptors` | MLCommon/src/Network/Unix/IpcReceiverUnix.cpp:92-103 | collects every client of every socket with the socket's name and nothing else |
| `Ipc.CollectedSpec` | MLCommon/src/Network/Unix/IpcReceiverUnix.cpp:92-103 | the collected descriptors are the listed clients, one name each when the sockets agree |
| `Ipc.IpcReceiver.ValidateEPoll` | MLCommon/src/Network/Unix/IpcReceiverUnix.cpp:105-130 | the two delta loops, in any order of the sets: the interest set follows the snapshots; starting in step, no DEL meets an unregistered and no ADD a registered descriptor if and only if no descriptor is removed twice, added twice, or added while staying registered; with one name per descriptor both are right |
| `Ipc.IpcReceiver.FindParent` | MLCommon/src/Network/Unix/IpcReceiverUnix.cpp:68-80 | the first socket listing the client, or none lists it |
| `Ipc.IpcReceiver.PurgeSockets` | MLCommon/src/Network/Unix/IpcReceiverUnix.cpp:82-90 | each mention of a hung-up client takes one listing out of the first list that has it |
| `Ipc.PurgeCounts` | MLCommon/src/Network/Unix/IpcReceiverUnix.cpp:82-90 | a purge takes away exactly one listing per mention while there are any, and none of other clients |
| `Ipc.ListedIff` | MLCommon/src/Network/Unix/IpcReceiverUnix.cpp:68-80 | a client has a listing if and only if some socket lists it |
| `Ipc.ReceiverRound` | MLCommon/src/Network/Unix/IpcReceiverUnix.cpp:12-57 | a round keeps interest set and snapshot in step without a failing kernel call: registered are exactly the clients listed at its start; afterwards the lists are purged and their names still agree |
| `Ipc.PurgedAreUnregisteredNext` | MLCommon/src/Network/Unix/IpcReceiverUnix.cpp:54-56 | after a purge a client is still listed if and only if it was listed more often than it hung up |
| `Ipc.RunReceiver` | MLCommon/src/Network/Unix/IpcReceiverUnix.cpp:12-57 | over any sequence of validations, purges and clients coming and going in between, in which every snapshot gives each descriptor one name: no kernel call ever fails, each validation leaves exactly the clients listed then registered, and nothing else touches the interest set |
| `Ipc.ChangedKeeps` | MLCommon/inc/Network/Ipc/IIpcSocket.h:36-57 | a client listed at a place stays there until it exits from there, the place is cleared, or it hangs up |
| `Ipc.ChangedAdds` | MLCommon/inc/Network/Ipc/IIpcSocket.h:36-43 | no client appears at a place but by entering there |
| `Ipc.ChangedDrops` | MLCommon/inc/Network/Ipc/IIpcSocket.h:45-57 | lists without duplicates stay so, and a client that exits from a place, or whose place is cleared, is gone from it |
| `Ipc.RegisteredIff` | MLCommon/src/Network/Unix/IpcReceiverUnix.cpp:12-57 | after any validation of a run the registered clients are exactly those some socket lists |
| `Ipc.EnteredIsRegistered` | MLCommon/src/Network/Unix/IpcReceiverUnix.cpp:12-57 | in every run a client that entered is registered by each validation that comes before it exits, its place is cleared, or it hangs up |
| `Transmitter.IpcTransmitter.SendData` | MLCommon/src/Network/Ipc/IpcTransmitter.cpp:11-24 | queues for the first socket with the URI, drops the message when none has it |
| `Transmitter.IpcTransmitter.GetHead` | MLCommon/src/Network/Ipc/IpcTransmitter.cpp:26-39 | takes the oldest message, or says there is none |
| `Transmitter.IpcTransmitter.InnerSendToClients` | MLCommon/src/Network/Unix/IpcTransmitter.cpp:6-17 | the loop over the snapshot makes the writes `WritesAre` describes and leaves the clients `SurvivorsAre` describes |
| `Transmitter.WritesAre` | MLCommon/src/Network/Unix/IpcTransmitter.cpp:9-11 | a message is written once to each client of the snapshot, in list order |
| `Transmitter.SurvivorsAre` | MLCommon/src/Network/Unix/IpcTransmitter.cpp:12-15 | a client stays listed if and only if it was listed and no write to it failed |
| `Transmitter.IpcTransmitter.SendToClients` | MLCommon/src/Network/Ipc/IpcTransmitter.cpp:41-49 | drains the queue message by message, each written to the clients its socket has by then |
| `Transmitter.StepKeepsFifo` | MLCommon/src/Network/Ipc/IpcTransmitter.cpp:11-39 | every step keeps: what was accepted for a socket is what was taken for it followed by what is queued for it |
| `Transmitter.StepKeepsDelivered` | MLCommon/src/Network/Unix/IpcTransmitter.cpp:6-17 | every step keeps: a client got distinct messages in order, as a member every one since it joined, after leaving none taken later |
| `Transmitter.EveryRunDelivers` | MLCommon/src/Network/Ipc/IpcTransmitter.cpp:11-49 | in every interleaving of sends, joins, leaves and write failures a client gets its socket's messages in order and none twice, as a member an unbroken segment from the one due when it joined, up to the last one taken whenever none is in hand, and after leaving nothing taken from the queue later |
| `Transmitter.JoinedGetsEverything` | MLCommon/src/Network/Ipc/IpcTransmitter.cpp:26-49 | a client that joins between two messages and stays a member gets, in order, every message taken for its socket from then on |
| `Transmitter.QueueCanDrain` | MLCommon/src/Network/Ipc/IpcTransmitter.cpp:41-49 | from every reachable state the drain loop can take everything accepted for a socket |
| `Transmitter.UndisturbedSend` | MLCommon/src/Network/Unix/IpcTransmitter.cpp:6-17 | when nothing comes between copying the list and its last write, the steps of the transition system leave the members and the deliveries that the program's own loop is proved to leave |
| `FolderMonitors.RecordAt` | DeploymentAgent/src/folder_monitor.h:131-142 | at a record boundary the parser finds the fields of the next record and the next boundary |
| `FolderMonitors.MaskBits` | DeploymentAgent/src/folder_monitor.h:96-104 | what the masks of close, open, create, delete and ignored mean as remainders of the event mask |
| `FolderMonitors.HandleIs` | DeploymentAgent/src/folder_monitor.h:138-160 | for every mask and list, what one event does: ignored, appended as new and unused, deleted at its first listing, or there touched and marked used by an open or unused by a close |
| `FolderMonitors.ReadyIff` | DeploymentAgent/src/folder_monitor.h:64-72 | a file is ready if and only if it is unconsumed, not in use, and at least timeout + 1 whole milliseconds have passed since it was touched (for a negative timeout: more than the timeout) |
| `FolderMonitors.AnnounceConcat` | DeploymentAgent/src/folder_monitor.h:64-72 | files are looked at in list order, one clock reading each |
| `FolderMonitors.FolderMonitor.GetWatchedFile` | DeploymentAgent/src/folder_monitor.h:125-129 | the first watched file with the path, or the end |
| `FolderMonitors.FolderMonitor.HandleStateChange` | DeploymentAgent/src/folder_monitor.h:96-104 | touches the file and updates its use flag from open or close |
| `FolderMonitors.FolderMonitor.HandleEvent` | DeploymentAgent/src/folder_monitor.h:138-160 | one event acts on the list as the record semantics says: ignored, created, deleted, or state change of the first entry |
| `FolderMonitors.FolderMonitor.ParseEvents` | DeploymentAgent/src/folder_monitor.h:131-162 | on a buffer of well-formed records it terminates with the list equal to folding the records in order |
| `FolderMonitors.FolderMonitor.Process` | DeploymentAgent/src/folder_monitor.h:64-72 | announces in list order the files that are ready and marks exactly those consumed |
| `FolderMonitors.AnnouncedIffReady` | DeploymentAgent/src/folder_monitor.h:64-72 | a path is announced if and only if some entry of it is ready at the reading of the clock made for it |
| `FolderMonitors.ProcessIsStep` | DeploymentAgent/src/folder_monitor.h:64-72 | what `process` hands to its consumer is what the step of a run logs, in the same order |
| `FolderMonitors.ParseIsSteps` | DeploymentAgent/src/folder_monitor.h:131-162 | what `parseEvents` makes of a buffer is what its records do as single steps of a run |
| `FolderMonitors.HandleAgrees` | DeploymentAgent/src/folder_monitor.h:138-160 | handling an event keeps every entry in agreement with the history of its path |
| `FolderMonitors.OnePerCreation` | DeploymentAgent/src/folder_monitor.h:64-72 | in every run announcements plus entries still to be announced never exceed creations of the path |
| `FolderMonitors.CountsOne` | DeploymentAgent/src/folder_monitor.h:143-145 | what is counted: events with the create bit and without the ignored bit, and announcements, of the path |
| `FolderMonitors.TrackedIff` | DeploymentAgent/src/folder_monitor.h:143-151 | by its events a path is listed if and only if it was created and not deleted since |
| `FolderMonitors.StateIs` | DeploymentAgent/src/folder_monitor.h:96-104 | then it was touched by the last event about it, and is in use if and only if it was opened and neither closed nor created anew since |
| `FolderMonitors.AnnouncedOnlyWhenReady` | DeploymentAgent/src/folder_monitor.h:85-114 | in every run that creates no path still watched, on any clock, every announcement is of a path whose last open or close was not an open and that was idle beyond the timeout |
| `FolderMonitors.ProcessJustifiedIff` | DeploymentAgent/src/folder_monitor.h:64-72 | from any state, one `process` announces rightly if and only if every listing that is ready when its turn comes has a path that is closed and idle by its events |
| `FolderMonitors.RepetitionBreaks` | DeploymentAgent/src/folder_monitor.h:143-158 | from any state, the first creation of a path still listed can be followed by an open and a `process` that announces the path while it is open |
| `FolderMonitors.JustifiedIffClean` | DeploymentAgent/src/folder_monitor.h:143-145 | from a state that agrees with its events, a run announces rightly at every point, on every monotone clock and whatever repetition-free steps come next, if and only if it never creates a path still listed |
| `FolderMonitors.EveryRunAnnouncesRightly` | DeploymentAgent/src/folder_monitor.h:64-162 | both, from the empty monitor |
| `FolderMonitors.DoubleCreationBreaksIt` | DeploymentAgent/src/folder_monitor.h:143-158 | created twice, opened, then announced while open |
| `SlidingWindows.SlidingWindow.Cleanup` | MLCommon/inc/Tools/SlidingWindow.h:133-138 | pops read items until at most the history depth remain; never an unread one |
| `SlidingWindows.SlidingWindow.AddData` | MLCommon/inc/Tools/SlidingWindow.h:39-46 | keeps storage a suffix of everything added with the read position between delivered and unread; the item becomes the last unread one |
| `SlidingWindows.SlidingWindow.HasNextData` | MLCommon/inc/Tools/SlidingWindow.h:48-51 | true if and only if something is unread |
| `SlidingWindows.SlidingWindow.GetNextData` | MLCommon/inc/Tools/SlidingWindow.h:53-64 | delivers the first unread item, or nothing and changes nothing; at most the history depth of read items remain |
| `SlidingWindows.SlidingWindow.SetHistoryDepth` | MLCommon/inc/Tools/SlidingWindow.h:140 | changes the bound and nothing else; it takes effect at the next call that cleans up |
| `SlidingWindows.QueueDeliversPrefix` | MLCommon/inc/Tools/SlidingWindow.h:39-64 | a plain queue delivers a prefix of what is added, each item once and in order |
| `SlidingWindows.RunWindow` | MLCommon/inc/Tools/SlidingWindow.h:39-64 | for every sequence of additions, reads and depth changes the window returns what a plain unbounded queue returns, and the read items it stores after each operation are counted exactly: one more per delivery, cut to the depth in force by every addition and delivery |
| `SlidingWindows.CountsWithinDepth` | MLCommon/inc/Tools/SlidingWindow.h:133-138 | these counts never exceed the depth in force after an addition or a delivery |

## Left out

MD5:

- Md5.MD5.Update: not called after finalization, where the C++ would restart from zeroed counters with the old state.
- Md5.DigestInChunks: each length must keep the 32-bit loop guard exact (`GuardExactIffLengthFits`); beyond that the C++ reads outside its input.
- The derivation of the sine constants (the table is taken as given) and the zeroing of scratch memory.
- The stream operator and the `char` overload of `update`, which only forward.

Frames and files:

- Converter.SetU32: returns the changed vector instead of writing through a reference, because the header vector is resized between writes.
- Converter.SetU64: returns the changed vector likewise.
- `Read` hands over the bytes as a value; destination buffers and `DataContainer` ownership are not modelled, so aliasing of the body with a reader's memory is not captured.
- Malformed size fields (a header size below 28, above the frame size, or a name longer than its header): parsers require a well-formed frame at the front of the stream.
- V4LFrame.Frame.DeserializeFrom: streams that return 0 are excluded; the C++ retries for ever there.
- V4LFrame.Frame.SerializeTo: total size below 2^31, since the byte count is an `int`.
- Setters other than `setName`: field assignments.
- Failing `open`, failing disk writes and stream destruction.
- DatFile.ReadIndicies: returns the map; keeping one map per index file in a vector is left out.
- Recording.RecordAll: at most 2^32 frames, so that offsets fit 64 bits.
- `GetFramesAtTimestamp` and `Loop` of the reader: they erase map elements inside `std::for_each`, which has no defined meaning, and otherwise sleep.

State machine:

- Actions or guards that throw, fire events themselves (the mutex is not recursive) or call `SetCurrentState`.
- Fsm.FsmHandler.FireEvent: the queue is empty at entry, because the lock is held until it has drained; contention on the lock is not modelled.
- Logging.

Timers and worker:

- Lengths of intervals: the thread may time out at any moment while the flag is held.  Spurious failures of `try_lock_for` count as time-outs.
- Timers.Timer.Start: `try_lock` on the free mutex succeeds; should it fail spuriously, as the C++ standard allows, the thread would acquire the mutex at once and that run would end without a callback.
- Workers.Worker.StopTimer: between events; in the run model the join is a step of its own that waits for the thread.
- Start, stop and destruction of the worker itself, the wake-up of its condition variable, and what `HandleMessage` does.
- Lifetime of timer objects: stopped timers are not deleted by the C++, and neither are they reused in the model.
- WorkerOrigins.OwnCallbackIff: a callback event posted by anything but a timer's thread has no owner, so such posts are excluded there and in `OwnIntervalOnly`; `EveryRunIsSafe` allows them.
- Timer callbacks that call into the worker do so by posting events, which any run may do at any point.

IPC:

- Ipc.EPoll.Add: fails only because of the registration; other errors are not modelled.
- Ipc.EPoll.Remove: likewise; nor is the kernel dropping a closed descriptor by itself.
- Ipc.IpcReceiver.CollectDescriptors: lists do not change while they are collected; the C++ locks one socket at a time.
- Ipc.IpcReceiver.PurgeSockets: no client joins between finding the parent and the removal.
- Reading from clients and dispatching what was read.
- Transmitter.IpcTransmitter.InnerSendToClients: a write takes the whole message or fails.
- The Windows variants, and waiting for data.

Folder monitor:

- FolderMonitors.FolderMonitor.ParseEvents: records as the kernel writes them; `read` itself, its 64-byte buffer and the directory watch are left out.
- The clock is read once per event and once per file, also where the C++ does not look at it; readings are in nanoseconds and may be any numbers.

Sliding window:

- SlidingWindows.SlidingWindow.AddData: `nextReadElement` is an index, so an old end position denotes the item pushed next.  `std::deque::push_back` formally invalidates the iterator; that the stored position survives is an assumption.
- `getInternalData`, `accessStorage`, moving and swapping windows, and the mutex.

Everything else in the repository (sockets, udev, mounts, shell commands, URI parsing, configuration, deployment steps)
is operating-system plumbing or accessors with little state.
