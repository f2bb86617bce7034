# A verified model of the segmented commit log

This Dafny project models the commit log in `internal/log` from its bytes up to
the replicated state machine, with three of its clients: the streaming server,
the membership handler and the load-balancing picker.

- **Bytes.** `Bytes` and `Codec` write out big-endian integers and the proto3
  wire format of `Record` and `ProduceRequest`; `Framing` is the length-prefixed
  stream, its parser, and what a cut stream parses to.
- **Storage.** `StoreFile.Store`, `IndexTable.Index`, `LogSegment.Segment` and
  `SegmentedLog.Log` are classes over a directory of files (`Files`): a write
  buffer in front of a data file, a mapped array of index pages, segments that
  keep the two in step, and the log that rotates, searches, truncates, closes
  and reopens them. Every public method is tied to a function of the abstract
  state in `LogSpec` (a list of segments, each a base offset and its records);
  the theorems about that state are in `LogTheorems`. `Reopening` is about the log
  as the code's own setup reopens it.
- **The simple log it refines.** `FlatLog` is the slice-backed log of the server
  package. `Refinement` proves that every run of appends, reads, prefix
  truncations and offset queries on the segmented log agrees with it, and
  `Distributed.SideBySide` runs the two classes next to each other.
- **Snapshots and replication.** `LogReader` is the concatenating reader,
  `Snapshot` interleaves it with appends, `Restoring` is the inverse, `Replica`
  runs a cluster of nodes over committed commands and snapshots, `RaftStore` is
  the log as raft's own store, and `Distributed` holds the methods themselves.
- **Concurrency.** `Writers` splits an append where the code releases its lock.
- **Clients.** `Streams` (a cursor over a changing log), `Membership` (server
  configurations under join and leave), `LoadBalance` (round robin on a
  wrapping counter).

Throughout, `Contents(st)` is the sequence of records a log holds, in offset
order from `Lowest(st)` to just below `Next(st)`, and `Good(st)` says that the
segments are contiguous and within their limits. The step functions of a cluster
and of raft's store are guarded by it, as they are defined on good logs only;
`Replica.GuardsHold` and `RaftStore.GuardsHold` prove that in a reachable state
the guard excludes no step that raft permits. In a cluster, `Holding` is what every
run keeps; `Sound` adds that nodes and snapshots hold what the committed commands say.

## Where the code and its intent differ

The code is modelled as written. Where an intended variant exists it is selected
by a parameter.

- `Log.Read` compares with `off <= segment.nextOffset` and stops at the first
  match, so the base offset of every segment but the first is refused. `strict`
  selects `<`. `LogTheorems.ReadAsWritten` gives the exact difference, and
  `Streams.StuckAtBoundary` shows a consumer that does not get past such an offset,
  and `Streams.TruncationFrees` when a truncation lets it.
- `setup` lists a base once per file, and so opens every segment twice.
  `perFile` selects that loop, `SetupPerFile`, with the next offset it ends at and
  the exact condition under which the highest offset survives, empty logs included
  (a fresh raft store reopened reports a last index of 1). What the log so reopened
  reads is unchanged (`Reopening.ReadReopened`), but its first append takes an
  offset that is in use unless the last segment holds one record or is full
  (`Reopening.AppendReopened`, `FirstAppendIs`, `AppendIsLost`).
- `Reset` lists a directory that it has just removed, so it always fails and
  leaves the log without files; a restore of any stream with a record fails with
  it, and breaks the replica (`Replica.RunRuns`). `repaired` selects the intended
  reset.
- `Log.Append` reads the highest offset before it takes the lock. `Writers`
  gives the exact condition under which that is harmless, and a run of two
  writers in which two records get the same offset.
- `DeleteRange` ignores its lower bound and removes whole segments.
  `RaftStore.DeleteRangeExact` says when that removes just the indices asked for;
  one that reaches the last stored index leaves a log without segments, and one up
  to the largest uint64 deletes nothing, as `lowest + 1` wraps to 0.
- `store.Read` refuses an empty payload, so the all-default record at offset 0
  can be stored but not read. `Fetch` carries that case through every read result.
- `Restore` converts a frame header to a signed integer; from 2^63 on the copy
  of a negative count copies nothing and reports no error. `TakeRecord` does the same.
- `segment.Read` outside its range returns a record of another offset in two
  cases: just below its base, where the difference is the index's code for its
  last entry, and where the conversion to uint32 cuts the difference down to a
  stored entry. `LogSegment.ReadOutside` is the exact condition. `Log.Read` never asks.
- `segment.Append` on a full index leaves an orphan frame in the store.
- The comment on `Snapshot` promises a point-in-time snapshot, but the stream is
  read while further commands are applied. Over every run a node holds what the
  committed commands say exactly when the stream it last installed held no record
  beyond its index (`Replica.ReplicaSafety`, `SoundIff`, `PersistFaithfulIff`);
  `SnapshotAhead` is a run where it did.
- `Picker.Build` keeps the previous leader when no ready connection is one.

## Model

| member | source | states |
|---|---|---|
| Bytes.ToBEDigit | internal/log/store.go:11-13 | Byte i of a fixed-width integer is its base-256 digit of that place, the most significant first. |
| Codec.UnmarshalMarshal | api/v1/log.proto:31-36 | Decoding the encoding of any record gives that record back, for all four fields and omitted defaults. |
| Codec.WireForm | api/v1/log.proto:31-36 | The bytes of a record: its tags 0x0A, 0x10, 0x18 and 0x20, each before its field, and nothing for a default. |
| Codec.VarintByte | api/v1/log.proto:31-36 | A number is written seven bits a byte, the least significant first, the top bit on all but the last, in as few bytes as hold it. |
| Codec.TakeVarintExact | api/v1/log.proto:31-36 | Which bytes are a varint, at most ten and below 2^64, shortest form or not, and the number each denotes; all others are refused. |
| Codec.TagsDecode | api/v1/log.proto:31-36 | Each of the four tagged fields, before any tail and onto any record, sets its own field, the type cut to 32 bits, so that the last occurrence wins. |
| Codec.UnknownSkipped | api/v1/log.proto:31-36 | Every other field, and one of these under another wire type, changes nothing. |
| Codec.TagRefused | api/v1/log.proto:31-36 | A field number of 0 or from 2^29 on, and any other wire type, makes the message malformed. |
| Codec.TextRefused | api/v1/log.proto:31-36 | So does a length that reaches beyond the message. |
| Codec.MarshalSize | api/v1/log.proto:31-36 | A record encodes to no bytes exactly when every field has its default; every encoding is shorter than 2^32. |
| Codec.UnmarshalMarshalRequest | api/v1/log.proto:15-17 | A produce request decodes to the record it was made from. |
| Codec.RequestFields | api/v1/log.proto:15-17 | Each field 1 of a request is merged into its record, or fails with it; all other fields are skipped. |
| Framing.ReadFrameAt | internal/log/store.go:69-94 | At the position of a frame, between any bytes before and after, the store reads its payload, or refuses it exactly when it is empty. |
| Framing.FrameBytes | internal/log/store.go:45-62 | A frame is the payload behind its length as eight bytes, the most significant first. |
| Framing.ParsePrint | internal/log/distributed.go:341-375 | The restore parser inverts the store's printer on every sequence of records, without an error. |
| Framing.ParsePrintThen | internal/log/distributed.go:341-375 | After printed records the parser goes on with whatever bytes follow: its records are appended and its error is kept. |
| Framing.ParseTruncated | internal/log/distributed.go:345-372 | A printed stream cut anywhere yields exactly the records whose frames are whole; no error at a frame boundary, unexpected end of file inside a length, end of file inside a payload. |
| Framing.HugeHeader | internal/log/distributed.go:353-356 | A length of 2^63 or more yields the all-default record and takes no payload, without an error. |
| StoreFile.Store.constructor | internal/log/store.go:26-38 | A store over an existing file holds that file's bytes, and its size is their number. |
| StoreFile.Store.Write | internal/log/store.go:51-57 | However much of the buffer flushes by itself, file bytes followed by buffered bytes grow by exactly the bytes written, and file bytes are never rewritten. |
| StoreFile.Store.Append | internal/log/store.go:45-62 | The contents grow by one frame; the position is the old length and the count the frame's. |
| StoreFile.Store.Read | internal/log/store.go:69-94 | Flushing changes no content, and the result is the frame at the position in the whole history, buffered part included. |
| StoreFile.Store.ReadAt | internal/log/store.go:100-108 | Reads a prefix of what lies at the offset, short exactly at the end of the history. |
| StoreFile.Store.Close | internal/log/store.go:114-123 | After closing, the file alone holds the whole history. |
| StoreFile.ReadBack | internal/log/store.go:45-123 | A payload read at its append position is the one written, after any later appends and again after a close and reopen; only an empty one is refused. |
| IndexTable.EntriesAppend | internal/log/index.go:100-110 | Writing an offset and a position behind whole entries appends exactly that entry. |
| IndexTable.Index.constructor | internal/log/index.go:33-56 | Opening resizes the file to its maximum, growing it with zeros or cutting it, maps it, and records the old size; the entries are kept, and the recorded size lies within the mapping, exactly if the file was not longer. |
| IndexTable.Index.Read | internal/log/index.go:77-98 | Returns the entry in the slot the argument denotes after conversion to uint32, -1 meaning the last one; end of file exactly outside the written entries. |
| IndexTable.Index.Put | internal/log/index.go:106-107 | Overwrites exactly the given range of the mapped array. |
| IndexTable.Index.Write | internal/log/index.go:100-110 | Puts twelve bytes behind the recorded size and touches no others, or fails and changes nothing exactly when size + 12 exceeds the mapping; behind whole entries that is one more entry. |
| IndexTable.Index.Close | internal/log/index.go:58-72 | The file is cut, or grown with zeros, to the recorded size of this handle, whatever other handles did to it; a file still mapped ends as the bytes written through the mapping. |
| LogSegment.EntriesForAppend | internal/log/segment.go:92-104 | Index entry k pairs k with the number of bytes of the first k frames, and one more record appends the next such entry. |
| LogSegment.ReadIndexed | internal/log/segment.go:108-122 | At the position the index gives for record k, any store that starts with the printed records yields exactly record k's encoding. |
| LogSegment.ReadInside | internal/log/segment.go:108-110 | Inside the segment the int64 and uint32 conversions lose nothing: the record at the offset is read. |
| LogSegment.ReadOutside | internal/log/segment.go:108-122 | For every offset outside the segment: refused exactly unless the difference is -1 or its low 32 bits name a stored entry, and which wrong record is then returned. |
| LogSegment.NextOnSecondOpening | internal/log/segment.go:69-73 | From cleanly closed files, of an empty segment too, the next offset is recovered; from files an opening has already grown it is one past the base, unless the index is full. |
| LogSegment.Segment.constructor | internal/log/segment.go:32-76 | From any two files, the index no longer than its limit: recovers store contents, whole index entries, and the next offset from the last of them. |
| LogSegment.Segment.ImageOpens | internal/log/segment.go:32-76 | Opening what a clean close left satisfies the whole segment invariant for the records it was closed with. |
| LogSegment.Segment.Append | internal/log/segment.go:83-106 | With room, appends the record under the next offset and keeps the segment invariant; on a full index it fails, with the frame already in the store. |
| LogSegment.Segment.Extended | internal/log/segment.go:92-105 | One more frame, one more entry and the next offset moved by one restore the invariant that ties store, index and records. |
| LogSegment.Segment.LookedUp | internal/log/segment.go:108-112 | For every uint64 offset, the index's answer to the converted difference is the entry of the record that the read returns, or the error it returns. |
| LogSegment.Segment.Read | internal/log/segment.go:108-122 | For every uint64 offset, inside the segment or not, gives what the conversions and the two lookups select from the records. |
| LogSegment.Segment.IsMaxed | internal/log/segment.go:127-131 | Full exactly when the printed records reach the configured store limit or a further twelve-byte entry would pass the configured index limit. |
| LogSegment.Segment.Remove | internal/log/segment.go:133-145 | Both files of this segment, and no others, leave the directory. |
| LogSegment.Segment.Close | internal/log/segment.go:147-157 | The files hold exactly the printed records and their index entries, at their unpadded length. |
| LogTheorems.ContentsContiguous | internal/log/log.go:107-130 | The records of a log carry the offsets lowest, lowest+1, ... and there are next minus lowest of them. |
| LogTheorems.AppendAdds | internal/log/log.go:107-130 | With or without a rotation, an append adds exactly the record stamped with the next offset and keeps the lowest. |
| LogTheorems.RotatesExactly | internal/log/log.go:107-130 | An append starts a segment at the next offset, with the record alone in it, exactly when the last segment's stored bytes reach the store limit or its entries leave no room for one more; otherwise the record joins the last segment. |
| LogTheorems.InStepIsAppend | internal/log/log.go:107-130 | An append whose earlier read of the highest offset is stale is the same as a fresh one unless the active segment is full; a rotation then leaves an active segment with room. |
| LogTheorems.ReadStrict | internal/log/log.go:142-159 | With the strict bound a read returns the record at that offset on all of [lowest, next) and is out of range everywhere else. |
| LogTheorems.ReadAsWritten | internal/log/log.go:146-156 | As written, the only difference is that the base offsets of all segments but the first are out of range. |
| LogTheorems.TruncateKeepsSuffix | internal/log/log.go:216-232 | With lowest+1, which wraps at 2^64, below next, a non-empty suffix of segments stays, cut exactly where segments end by lowest+1; next stays, the new lowest is at most lowest+1 or unchanged, and the contents are the matching suffix. |
| LogTheorems.TruncatePreservesReads | internal/log/log.go:216-232 | Every read above the truncation point is unchanged: all of them with the strict bound, all successful ones as written. |
| LogTheorems.BaseAfterTruncate | internal/log/log.go:216-232 | What a truncation does to the base of a later segment: exactly when it stays inside the log, becomes the lowest offset, or is gone. |
| LogTheorems.TruncateEmptiesIff | internal/log/log.go:216-232 | Truncation leaves no segment exactly when lowest+1, wrapping at 2^64, reaches the next offset. |
| LogTheorems.StreamIsPrint | internal/log/log.go:240-250 | The segments' stores one after another are the printed contents of the log. |
| SegmentedLog.NewLog | internal/log/log.go:35-50 | A limit left at zero becomes 1024 and any other is kept, each on its own; then setup, as written (perFile) or with each base opened once, and its error for a missing directory. |
| SegmentedLog.Log.NewSegment | internal/log/log.go:52-62 | The new segment becomes the last and the active one; on clean files it is valid with their records, on none it is empty. |
| SegmentedLog.Log.ListBases | internal/log/log.go:69-85 | The sorted listing holds every base exactly as often as it has files, or once. |
| Listing.SortedUnique | internal/log/log.go:83-85 | Two sorted listings with the same bases, counted, are the same sequence. |
| Listing.ListingIs | internal/log/log.go:74-85 | The listing of a log's directory is its bases in order, each once or each twice in a row. |
| SegmentedLog.Log.Setup | internal/log/log.go:68-100 | On a cleanly closed directory: with each base opened once, the same segments, next offsets and records; as written, every segment open twice. An empty directory gets one empty segment; a missing one is an error that changes nothing. |
| SegmentedLog.Log.SetupPerFile | internal/log/log.go:68-100 | As written: of every base the first handle is the whole segment and the second has a full index, ending one past the base unless the first is full, too; the highest offset is the old one exactly when the last segment holds one record or a full index, or is empty at base 0. |
| Reopening.FirstHandle | internal/log/log.go:146-152 | On such handles the search stops at the first handle of the segment where the old search stops; only the second handle of an empty segment covers more. |
| Reopening.ReadReopened | internal/log/log.go:142-159 | The log reopened as written reads at every offset what the old log read, with either bound, but for end of file at the base of an empty last segment under the strict one; offsets of the old log do so after later appends, too. |
| Reopening.FirstAppendIs | internal/log/log.go:107-121 | The first append on it goes to one past the base of the last segment, or to the old next offset if that is full: to the old next offset exactly when the last segment holds one record or is full. |
| Reopening.AppendReopened | internal/log/log.go:107-130 | On the log itself that append succeeds with that offset, on a new segment that holds it alone, and disturbs no handle. |
| Reopening.AppendIsLost | internal/log/log.go:107-159 | With more than one record and room in the last segment the offset is taken: reads there still end at the old segment, with the strict bound at its second record. |
| SegmentedLog.Reopen | internal/log/log.go:68-176 | Close, then NewLog: with each base opened once, the same segments, records, offsets and limits; as written, every segment open twice. |
| SegmentedLog.Log.Append | internal/log/log.go:107-130 | A serialized append succeeds with the next offset, keeps the whole representation and has exactly the effect of the abstract append; it adds a segment exactly when the last one's stored bytes or entries have reached a configured limit. |
| SegmentedLog.Log.AppendLocked | internal/log/log.go:113-130 | The locked half with any earlier highest offset: in step it appends as specified; otherwise the segments overlap, and the record gets a taken offset or, if a segment starts there, the append fails on that segment's full index. |
| SegmentedLog.Log.Read | internal/log/log.go:142-159 | On files, buffers and mapped pages, returns exactly the abstract read, with either bound, and changes no content. |
| SegmentedLog.Log.FindSegment | internal/log/log.go:146-152 | The loop stops at the first segment whose range covers the offset. |
| SegmentedLog.Log.Lookup | internal/log/log.go:142-159 | On any open handles, valid or not, the first one that covers the offset answers, by its own records if it is valid, and nothing else is touched. |
| SegmentedLog.Log.LowestOffset | internal/log/log.go:198-202 | The lowest offset held. |
| SegmentedLog.Log.HighestOffset | internal/log/log.go:204-214 | One below the next offset, and 0 for a log that starts at 0 and is empty. |
| SegmentedLog.Log.Truncate | internal/log/log.go:216-232 | For every uint64: removes the files of exactly the segments that end by lowest+1, wrapping at 2^64; what remains is a valid log, or no segment and no file when that reaches the next offset. |
| LogTheorems.KeptFrom | internal/log/log.go:220-230 | Truncation at any uint64 keeps the segments from one on, cut exactly where they end by lowest+1, wrapping at 2^64: a good log if any, none exactly when that reaches the next offset. |
| SegmentedLog.Log.Close | internal/log/log.go:165-176 | The directory then holds exactly the segments, each as the image that opening recovers. |
| SegmentedLog.Log.Remove | internal/log/log.go:182-188 | Neither the directory nor any file of it remains. |
| SegmentedLog.Log.Reset | internal/log/log.go:190-196 | As written it always fails and leaves no files; repaired, it leaves one empty segment at the initial offset. |
| SegmentedLog.Log.SetInitialOffset | internal/log/distributed.go:363 | Moves only the configured start, not the records held. |
| LogReader.OriginReader.Read | internal/log/log.go:252-256 | Bytes returned and bytes still unread together are what was unread before; short only at the end. |
| LogReader.MultiReader.Read | internal/log/log.go:249 | The same across stores, dropping exhausted ones: nothing is lost or repeated where two stores meet. |
| LogReader.Copy | internal/log/distributed.go:324 | Reading in chunks of any size copies exactly the bytes that remained. |
| LogReader.NewReader | internal/log/log.go:240-250 | A reader of every segment's store from its start yields the stream of the log. |
| LogReader.TakeRead | internal/log/log.go:252-256 | One read of the current store, buffered part included, is the step of the interleaved model and leaves the log valid. |
| LogReader.Persist | internal/log/distributed.go:314-330 | On the log itself, read piece by piece while others append and rotate: log and stream are those of the interleaved model, and a stream read to its end holds the records up to one offset between the next ones at the start and at the end. |
| Snapshot.RunKeeps | internal/log/log.go:240-256 | Under any interleaving of chunked reads and appends, what was read so far is the printed older segments and a byte prefix of the current one. |
| Snapshot.SnapshotConsistent | internal/log/log.go:240-256 | A finished read, interleaved in any way with appends and rotations, parses without error to the records from lowest up to one offset between next at the start and next at the end. |
| Snapshot.RunAppends | internal/log/log.go:240-256 | What the appends of such an interleaving carry is in the log at its end, in order under the next offsets, and the reads change nothing. |
| Snapshot.ReadMoves | internal/log/log.go:252-256 | A read takes just the bytes asked for, or what is left of the store and then goes on to the next one. |
| Snapshot.ReadsFinish | internal/log/log.go:240-256 | With nobody appending, one non-empty read for each byte left and one for each store's end finish the snapshot. |
| Restoring.AppendAllAdds | internal/log/distributed.go:368 | Appending any records adds them in order under consecutive offsets, whatever offsets they arrive with. |
| Restoring.RestorePrinted | internal/log/distributed.go:341-375 | With the intended reset, restoring printed records with consecutive offsets gives exactly those records from the first one's offset on. |
| Restoring.RestoreCut | internal/log/distributed.go:341-375 | With the intended reset, from a stream of any log cut after any number of bytes, exactly the records with whole frames are restored, at their own offsets; with none, the target is unchanged. |
| Restoring.RestoreSnapshot | internal/log/distributed.go:314-375 | With the intended reset, snapshot then restore, into any log with any limits, gives the same records at the same offsets; an empty log leaves the target unchanged. |
| Distributed.SnapshotReader.ReadFull | internal/log/distributed.go:346-351 | Exactly the bytes asked for, or the two different errors for none left and too few left. |
| Distributed.SnapshotReader.CopyN | internal/log/distributed.go:353-356 | Exactly the bytes asked for, nothing and no error for a negative count, or end of file. |
| Distributed.SnapshotReader.NextRecord | internal/log/distributed.go:345-360 | One turn of the loop takes the parser's next record, or its error, off the stream. |
| Distributed.RestoreLog | internal/log/distributed.go:341-375 | The loop on the log itself: with the intended reset, state and error are those of the parsed stream; as written, any stream with a record fails and leaves no files. |
| FlatLog.Log.AppendRecord | internal/server/log.go:32-40 | After an append the record is read at the returned offset, which was the first one without a record, and every other offset reads as before. |
| FlatLog.Log.ReadRecord | internal/server/log.go:47-56 | A read succeeds exactly below the number of appends, and the record it returns carries the offset asked for. |
| FlatLog.ReadAppended | internal/server/log.go:32-56 | Append then read, for every offset. |
| Refinement.StepRefines | internal/log/log.go:107-232 | One operation on both logs keeps them related and their answers agree: a read never returns a record other than the one appended at that offset, the lowest offset is where what is held begins, a truncation ends every segment that ends by lowest+1 and changes no read from there on, and a query changes nothing. |
| Refinement.RunRefines | internal/log/log.go:107-232 | The same over every run from related logs. |
| Refinement.SegmentedRefinesFlat | internal/server/log.go:32-56 | From fresh logs, every run of the segmented log, whatever its limits and initial offset, agrees at every step with the slice-backed log. |
| Refinement.SegmentsFilled | internal/log/segment.go:127-131 | In every run from a fresh log, truncations included, each segment but the last has reached one of the two limits, and no segment had reached one before its last record. |
| Distributed.SideBySide | internal/log/log.go:107-232 | Both classes run on the same operations: every answer of the segmented log agrees with the flat log's at that moment, and the two end related. |
| Replica.CommandDecoded | internal/log/distributed.go:150-166 | What apply submits is a zero byte and the request, and decodes at the state machine to the record that was to be appended. |
| Replica.ApplyCases | internal/log/distributed.go:285-308 | A command of another type changes nothing and gets no answer; one that does not decode changes nothing and is answered with the error; that of a record appends it and is answered with its offset. |
| Replica.StartSound | internal/log/distributed.go:40-49 | Fresh nodes with any segment limits satisfy both cluster invariants. |
| Replica.ApplyHolds | internal/log/distributed.go:285-308 | Applying the next command keeps a node's log that of its last installed stream and the commands since; its answer is the one these determine. |
| Replica.InstallHolds | internal/log/distributed.go:341-375 | Installing a snapshot: with the intended reset the node holds its stream, and what it held if that is empty; as written the node survives exactly the streams without a record. |
| Replica.StepHolds | internal/log/distributed.go:285-375 | Every commit, apply, persisted snapshot, exact or not, and install, as written or repaired, keeps that invariant of all running nodes and snapshots. |
| Replica.RunHolds | internal/log/distributed.go:285-375 | So does every run of them. |
| Replica.RunCommits | internal/log/distributed.go:150-175 | A run commits, after what was committed, the data of its commit steps in order, and adds one snapshot for each persist step to those there were. |
| Replica.NodeProgress | internal/log/distributed.go:285-308 | Over any run without an install on a node, the node goes on by one command for each of its apply steps, and its contents grow by exactly the records of those commands, under the next offsets. |
| Replica.PersistSaves | internal/log/distributed.go:314-330 | After any run, a persist step adds a snapshot with its index whose stream parses to the node's first records. |
| Replica.InstallMoves | internal/log/distributed.go:341-375 | After any run, a repaired install of a stream with a record leaves the node at the snapshot's index with the stream's records, and one without a record at the index with what it held; as written a record breaks the node; no other node changes. |
| Replica.FirstRecord | internal/log/distributed.go:150-308 | A fresh node on which one record is committed and applied holds just that record. |
| Replica.GuardsHold | internal/log/distributed.go:285-375 | In every reachable cluster each step that raft permits is defined. |
| Replica.SoundIff | internal/log/distributed.go:314-375 | A node that holds a stream and the commands since holds what the committed commands say exactly when the stream held the records of the commands up to its index. |
| Replica.PersistFaithfulIff | internal/log/distributed.go:314-330 | The stream that such a node persists does so exactly when it stops at the records of the commands up to its index. |
| Replica.StepOk | internal/log/distributed.go:285-375 | A step from such a state keeps all nodes and snapshots at what the committed commands say, unless it saves a snapshot that ran ahead of its index; then that snapshot is not what they say. |
| Replica.RunOk | internal/log/distributed.go:285-375 | So every run does exactly if all its snapshots stop at their index. |
| Replica.RunRuns | internal/log/distributed.go:341-375 | In any run, all nodes are running at the end exactly when they were and no step restored a stream with a record through the reset as written. |
| Replica.SameAnswers | internal/log/distributed.go:150-175 | In any run, any two nodes at any two moments answer the same to the same command exactly when it appends nothing or both hold equally many records; and they do if the streams they last installed held no record beyond their index. |
| Replica.ReplicaSafety | internal/log/distributed.go:177-308 | After every run, exact snapshots or not, restores as written or repaired, a running node is at what the committed commands say exactly when the stream it last installed was, and a read on it then gives the committed record at that offset or an error, never another record; in runs of exact snapshots every running node is. |
| Replica.SnapshotReplay | internal/log/distributed.go:313-375 | Restoring, with the intended reset, a non-empty stream of a snapshot of an index and replaying the commands after it gives the committed records exactly when the stream holds no record from beyond that index. |
| Replica.SnapshotAhead | internal/log/distributed.go:313-330 | A concrete run where a snapshot that ran ahead makes a record appear twice. |
| Distributed.ApplyCommand | internal/log/distributed.go:285-308 | The method on the log itself has exactly the effect and response of the abstract apply, decoding errors and unknown types included. |
| RaftStore.StoreKeeps | internal/log/distributed.go:421-433 | A batch with consecutive indices from the last one on keeps index equal to offset. |
| RaftStore.DeleteKeeps | internal/log/distributed.go:435-437 | So does a deletion whose max+1, wrapping at 2^64, is below the next index, whatever lower bound it is given. |
| RaftStore.DeleteRangeExact | internal/log/distributed.go:435-437 | For every two uint64: exactly the stored indices from min to max go if and only if a condition on min, max, the first index, the next one and the segment ends holds, the wrap of max+1 included. |
| RaftStore.DeleteToTheEnd | internal/log/distributed.go:435-437 | A deletion up to the largest uint64 deletes no stored index. |
| RaftStore.RunDeletes | internal/log/distributed.go:435-437 | At the end of any run the first segment reaches beyond the upper bound of every deletion, and the lowest index is the old one or at most one past such a bound. |
| RaftStore.GuardsHold | internal/log/distributed.go:417-437 | In every reachable store each step that raft permits is defined. |
| RaftStore.GetLogExact | internal/log/distributed.go:404-415 | The indices that can be read, exactly, and the entry each gives; out of range for all others. |
| RaftStore.IndexAgreement | internal/log/distributed.go:70-437 | Over every run from an empty store with initial offset 1, every readable index returns the stored index, term, type and data; with the strict bound that is every index still held. |
| Distributed.StoreLogs | internal/log/distributed.go:421-433 | The loop on the log itself stores exactly the batch, in order. |
| Distributed.GetLog | internal/log/distributed.go:404-415 | The method on the log itself fills in exactly the abstract result. |
| Distributed.DeleteRange | internal/log/distributed.go:435-437 | Truncates at any uint64; the log stays valid, or ends without segments and files when max+1, wrapping at 2^64, reaches the next index. |
| Writers.FinishExact | internal/log/log.go:107-130 | An append with an earlier read of the highest offset stores the record at the next offset if the active segment is not full or the read is still current, and otherwise always breaks contiguity. |
| Writers.TimelyRunsSafe | internal/log/log.go:107-130 | Over every run in which each append meets that condition, the contents are those before and the finished records in order, under consecutive offsets. |
| Writers.OneWriterTimely | internal/log/log.go:107-130 | Every run of a single writer meets it. |
| Writers.TwoWritersCollide | internal/log/log.go:204-214 | A run of two writers that ends with two records at offset 1. |
| Streams.ConsumeInOrder | internal/server/server.go:179-199 | Over every interleaving with appends, truncations and reads by others, what is sent is start, start+1, ... of the flat log, with no gap, duplicate or reordering. |
| Streams.CancelStops | internal/server/server.go:181-183 | Whatever comes before and after a cancellation, what is sent in all is what was sent before it, and the stream is closed. |
| Streams.ClosesWhen | internal/server/server.go:179-199 | An open stream is closed at the end exactly when some event was a cancellation or a poll that met the unreadable all-default record, and nothing is sent from then on. |
| Streams.ClosedStays | internal/server/server.go:179-199 | A closed stream sends nothing more. |
| Streams.RunLog | internal/server/server.go:179-199 | The log under a stream is what the others' operations make of it; consuming changes nothing. |
| Streams.PollProgress | internal/server/server.go:179-199 | A poll moves the cursor exactly when it points at a held, non-default record that the read bound admits. |
| Streams.StrictCatchesUp | internal/server/server.go:179-199 | With the strict bound a consumer at or above the lowest offset, not at an all-default record at offset 0, stays so exactly when no event closes it, truncates a segment that holds its next record or a later one, or puts such a record there; then what is pending is what was, plus the appends, less the polls that found a record, and after as many polls as records were pending all those have been sent. |
| Streams.StuckAtBoundary | internal/log/log.go:146-156 | As written, a consumer at the base of a later segment sends nothing more, however many polls, appends, reads and truncations short of the record before it follow. |
| Streams.TruncationFrees | internal/log/log.go:146-232 | A truncation lets it read on exactly when it ends the segment before the cursor and not the one at it; reaching further, it puts the cursor below the log, and short of it changes nothing for it. |
| Distributed.ConsumeStream | internal/server/server.go:179-199 | The loop on the log itself, with others using the log between polls, sends exactly what the abstract run sends, and with a cancellation no more than the events before it do. |
| Streams.ProducedWhere | internal/server/server.go:133-177 | Whatever others do between the requests, there is one answer per request, the answers increase, and each is the offset at which the flat log holds the request's record. |
| Distributed.ProduceStream | internal/server/server.go:161-177 | The loop on the log itself, with others using the log between requests, leaves the log of that run and gives its answers. |
| Membership.JoinedUnique | internal/log/distributed.go:195-223 | A successful join keeps ids and addresses unique. |
| Membership.InJoined | internal/log/distributed.go:195-223 | After it, exactly the joined server and every earlier one that conflicts with neither its id nor its address are present. |
| Membership.JoinedAgain | internal/log/distributed.go:203-208 | Joining twice is joining once. |
| Membership.PrunedUnique | internal/log/distributed.go:203-216 | A join that raft fails half way leaves a configuration that is still unique. |
| Membership.InPruned | internal/log/distributed.go:203-216 | Such a join has added nothing and removed no server without a conflict. |
| Membership.Raft.Join | internal/log/distributed.go:195-223 | Fails exactly when one of the raft calls it makes fails, the reading of the configuration included, and then at once: on success the configuration is the joined one, on failure some pruned one, unchanged if the server was there already; uniqueness is proved, not assumed of raft. |
| Membership.Raft.Leave | internal/log/distributed.go:227-233 | The server is gone, or raft's call failed and nothing changed. |
| Membership.FoldMembership | internal/discovery/membership.go:88-124 | After any sequence of joins and leaves, a server is present exactly when it was there at first or joined, and nothing after that removed its name, moved it, or gave its address to another. |
| Membership.TraceMembership | internal/discovery/membership.go:88-124 | On the events themselves, up to the first leave or failure of the local member: a server is present exactly when it was there at first or joined as another member than the local one, and after that no other member left or failed under its name, joined under its name at another address, or under another name at its address. |
| Membership.HandleJoins | internal/discovery/membership.go:92-97 | Joins every member but the local one, in order, each with its own outcome. |
| Membership.HandleLeaves | internal/discovery/membership.go:100-105 | Removes members in order, each with its own outcome, and stops for good at the local one. |
| Membership.RanMembership | internal/discovery/membership.go:88-124 | Whichever calls fail: uniqueness; a server that came in and that nothing later tried to put out is in; and one that is in came in and was put out by no later action that succeeded. |
| Membership.EventHandler | internal/discovery/membership.go:88-108 | Over a whole trace there is one error for each raft call that failed, and the configuration is the run of its actions, up to the exit; without errors exactly the servers that the events say remain are present. |
| LoadBalance.Picker.Build | internal/loadbalance/picker.go:21-37 | The followers are the ready connections that do not lead, each once; the leader is a ready one that leads, or the earlier leader if none does. |
| LoadBalance.Picker.NextFollower | internal/loadbalance/picker.go:58-63 | Advances the counter by one, modulo 2^64, and takes the follower at its new value modulo their number. |
| LoadBalance.Picker.Pick | internal/loadbalance/picker.go:41-56 | Calls whose name has "Produce" anywhere in it, and all calls without followers, go to the leader; others with "Consume" anywhere to the next follower; the rest to none, without moving the counter. |
| LoadBalance.ContainsMeans | internal/loadbalance/picker.go:46-48 | The test holds exactly when some slice of the name is the word. |
| LoadBalance.ProduceNames | api/v1/log_grpc.pb.go:22-25 | The full names of Produce and ProduceStream pass the first test. |
| LoadBalance.ConsumeNames | api/v1/log_grpc.pb.go:23-24 | Those of Consume and ConsumeStream pass the second and not the first. |
| LoadBalance.OtherName | api/v1/log_grpc.pb.go:26 | That of GetServers passes neither. |
| LoadBalance.Picker.PickMany | internal/loadbalance/picker.go:41-63 | Of m consume calls in a row every follower gets the floor or the ceiling of m/n while the counter does not wrap, and any two get shares within 2 of each other over at most 2^64 calls. |
| LoadBalance.PicksCounted | internal/loadbalance/picker.go:58-63 | How often a follower occurs among the picks is the count of its positions. |
| LoadBalance.CountBelow | internal/loadbalance/picker.go:58-63 | Without a wrap, the picks of a follower are a difference of two counts of numbers with its remainder. |
| LoadBalance.FairWithoutWrap | internal/loadbalance/picker.go:58-63 | Any m consecutive picks give each of n followers the floor or the ceiling of m/n. |
| LoadBalance.FairAcrossWrap | internal/loadbalance/picker.go:58-63 | In any window of at most 2^64 picks, from any counter value, two followers' counts differ by at most 2. |

## Left out

- I/O errors, and a crash without `Close`: the index then keeps its padded length, and the code has no recovery to verify.
- Appends whose offsets or sizes overflow 64 bits, and index limits below one entry or from 12 * 2^32 on: preconditions of the operations (`GoodLimits`, `Next + 1 < 2^64`).
- File names: a directory maps a base to its pair of files; decimal names, other files in the directory, and a crash between creating the two files are not modelled.
- `Append` stamps the caller's record object in place; records are values here, so that aliasing is not captured.
- Payloads are limited to 2^31 bytes as in the protobuf library; unknown proto3 groups are rejected, and a nil record in a request is excluded, as it makes the code dereference nil.
- The slice log's record has a value and an offset; the model's carries term and type as well.
- What the code does after a truncation that removes every segment: its next append would go to a segment whose files are closed, and its next offset query would index an empty list.
- Truncation, close or reset while a snapshot of the same log is being read.
- Mutexes and thread scheduling beyond the interleavings stated: appends in two steps, snapshot reads, stream polls and cluster steps.
- Raft, serf and protobuf internals: raft commits commands in order, and adding or removing a server takes effect whole or not at all.
- LogSegment.Segment.constructor: excludes an index file longer than its limit, where the recorded size passes the mapping and reading the last entry may index out of range.
- SegmentedLog.Log.Setup: covers missing, empty and cleanly closed directories; one left by a crash has padded index files, which the code does not recover.
- SegmentedLog.Log.SetupPerFile: two handles on one file are followed through reads and the first append, not through further appends, truncation or closing.
- StoreFile.Store.Read: off a frame boundary a header too large to allocate makes the code panic; the contract reports end of file. The log reads only at frame positions.
- Writers.FinishExact: its out-of-step append starts a segment on new files; where a segment already starts at that base the append fails instead, as `SegmentedLog.Log.AppendLocked` states.
- Replica.StepHolds: a node installs no other snapshot while it is reading one of its own.
- Refinement.StepRefines: an out-of-range answer is related to the bounds of the segmented log, as the slice log has no truncation.
- TLS, sockets, `StreamLayer`, `WaitForLeader`, `GetServers`, agent, command line, HTTP, authorization, resolver and logging; `nearestMultiple` is unused.
