# Model of the ozd storage daemon

This project models the parts of ozd whose correctness depends on many steps fitting together, and proves properties of
them for all inputs, runs and interleavings.

* **Shard engine.** `Segment.dfy` is the record codec, the recovery scan and the segment writer, byte for byte.
  `Engine.dfy` is the index and the segments as a value, and the plain key map they stand for. `GcRuns.dfy` breaks
  garbage collection into its I/O steps and lets whole user operations come between any two; `WriteAmp.dfy` accounts
  for every byte in such runs and `ByteCount.dfy` ties those accounts to the segments; `DiskEngine.dfy` is the shard object, each method tied to the step model; `Recovery.dfy`
  is what a stop and the replay at open do to the map, `ReplayRuns.dfy` which runs survive it unchanged and `Reopened.dfy`
  what a reopened shard is still good for. `SplitPuts.dfy` and `SplitSweep.dfy` take puts, the orphan sweep and the eviction
  apart into two steps each, and `StopWindow.dfy` has concrete runs that lose keys; `AddrRow.dfy` is the index row.
* **Redundancy.** `Piece.dfy` and `Erasure.dfy` are the piece envelope and the K + M coding around a Reed-Solomon
  contract. `PoolRead.dfy` says exactly when a read succeeds, `PoolWrite.dfy` and `PoolRepair.dfy` what placements
  migration, erasure writes and repair go through, `PoolLoss.dfy` how many lost shards a placement stands,
  `MirrorFill.dfy` what the repair of a key found raw does to its pieces, and `KeyPool.dfy` is those operations shard call by shard call.
* **Concurrency and time.** `SingleFlight.dfy` (coalesced cache reads) and `HealDrain.dfy` (heal workers) are state
  machines over atomic steps. `HealQueue.dfy`, `RollingP99.dfy` and `Throttle.dfy` are stateful objects with ghost
  histories.
* **Arithmetic, order and text.** `Calendar.dfy`, `Snapshots.dfy`, `Base32.dfy`, `Varint.dfy`, `Car.dfy`,
  `Placement.dfy`, `Listing.dfy`, `Resilver.dfy`; `Order.dfy` is the order of byte strings and sorting.

## What the model assumes

* Checksums, hashes, scores and the compressor are functions; the compressor only has to be undone by its inverse.
  The erasure code is a contract, `Erasure.Mds`, shown to be satisfiable.
* Each shard call and each index transaction succeeds or changes nothing. One collection pass at a time. In `GcRuns.dfy`,
  and what builds on it, a put, a sweep and an eviction are one step each; `SplitPuts.dfy` and `SplitSweep.dfy` say
  what holds without that.
* A stop keeps the index as last committed. Of the segments it may take back any records that no sync has covered.
* Keys are shorter than 64 KiB and stored bodies shorter than 4 GiB, the widths of the record header. A body that is
  stored as an erasure object is not empty and does not itself parse as a piece.
* In the pool the ranking of a key is fixed while it is read, written or migrated, and a key has one body. A shard may
  fail any kind of call and, in migration, may store other bytes than it was given on a tail rank.
* In the single-flight model keys are write-once and not deleted. Times given to the throttle and the percentile do not
  go back; the throttle's limits satisfy 0 < min <= max and its numbers are reals.

## Where the code falls short of its documentation

Each of these is a lemma with a concrete input or an exact condition.

* Between the row swap of a pass and its flush, a key that was durable points at an unsynced copy; a stop there loses
  it (`StopWindow.WindowReached`, `Recovery.CasOpensWindow`). The comment at crates/ozd-engine/src/lib.rs:331-338 says a
  stop at any point leaks space only.
* An open moves the flush offset to the end of the file without a sync (crates/ozd-engine/src/segment.rs:236-250), so the
  next flush does nothing until something is appended. A pass can then unlink a victim whose moved records are on no disk
  (`StopWindow.ReopenLoses`); exactly when its flush suffices is `Recovery.FlushClosesWindow`. If the next append rotates
  first, the rotation's flush does nothing either (`Recovery.RotateSyncs`).
* A put whose segment is sealed and unlinked between its append and its index commit is lost although it returns
  (`StopWindow.SweepLosesPut`), exactly when its commit is not in time (`SplitPuts.CommitSafe`). A sweep whose reference
  scan is older than a segment's sealing unlinks live records (`StopWindow.SweepRace`, `SplitSweep.LateUnlink`), and an
  eviction drops keys that were put anew since its scan (`SplitSweep.LateEvict`). The comment at
  crates/ozd-engine/src/lib.rs:468-469 says a sealed segment gets no new references.
* Replay at open brings back a deleted key exactly when it has a record past the recovery point
  (`Recovery.ReplayResurrects`). It puts a key that was overwritten inline meanwhile into both tables
  (`Reopened.ReopenedWell`).
* A file shorter than its recovery point, and only such a file, leaves the writer past the end of the file
  (`Segments.WriterAtEnd`, `Segments.WriterPastEnd`).
* Migration keeps a key readable throughout if and only if M >= R - 1 (`KeyPools.KeyPool.MigrateKey`,
  `PoolWrite.TooFewParityPieces`); the daemon's configuration check (crates/ozd-daemon/src/main.rs:400-417) does not ask
  for it. Each head write that fails costs the key one shard of its tolerance, and the health test of the repair
  queued for it passes the key over (`PoolLoss.RawLegsCost`).
* Repair writes over misplaced pieces in rank order, so a failing write can lose a piece; it is safe exactly when each
  piece is at its own rank or off the targets (`PoolRepair.RepairSafeWhenAnchored`). An erasure-coded key that lost just
  its tail is passed over as a healthy mirror (`PoolRepair.TailLossIgnored`). A half-migrated key can lose a piece that a
  leg wrongly denies having to the copies of its body (`MirrorFill.DeafPieceLost`), never otherwise
  (`MirrorFill.FillKeepsReadable`), exactly when is `MirrorFill.FillExact`.
* The pieces of an empty body and, with K + M = 256, of any body do not parse (`Erasure.PiecesParse`,
  `Erasure.TooManyPieces`).
* A get that starts after a put has returned can still be told that the key is absent (`SingleFlight.PutCanBeMissed`),
  exactly when it joins a flight whose leader already found it absent (`SingleFlight.MissedExactly`).
* Within a priority the heal queue is not always first in, first out (`HealQueues.StaleCopyJumps`); it is exactly when no
  matching leftover puts a key before one pushed earlier (`HealQueues.FifoExactly`).
* A list cursor before the prefix, unless it is the key just before it, can end a page early (`Listing.CursorExactly`);
  snapshot names stop sorting in time order at the year 10000 (`Snapshots.OrderedUntil`); numbers from 2^63 on are
  written but not read back (`Varint.RoundTrip`).

## Model

| member | source | states |
|---|---|---|
| `GcRuns.RunRefinesMap` | crates/ozd-engine/src/lib.rs:331-463 | over every run of the step model (user operations between any two collector steps, passes aborted anywhere) the key map, era field included, is exactly what the user operations alone make of it, and every row points at a readable record |
| `GcRuns.StepSafe` | crates/ozd-engine/src/lib.rs:369-455 | each single step of a pass keeps that, including that no row points at the victim once the scan has passed it |
| `GcRuns.GetIsAtomic` | crates/ozd-engine/src/lib.rs:699-742 | a two-attempt read racing anything returns the value at one of its lookups, reports absence only if the key was absent at one, and fails only if both looked-up segments were unlinked in between |
| `GcRuns.GetInRun` | crates/ozd-engine/src/lib.rs:699-742 | so does a read whose four moments fall anywhere in a run, in terms of what the user operations made of the map |
| `GcRuns.ReadLater` | crates/ozd-engine/src/lib.rs:699-742 | a row read later gives the value it had at its lookup, or nothing exactly when its segment is gone |
| `GcRuns.RunLater` | crates/ozd-engine/src/lib.rs:331-463 | in every run segment ids are not reused and surviving segments only grow, which is what the racing read relies on |
| `WriteAmp.RunBooks` | crates/ozd-engine/src/lib.rs:331-510 | in every run from a fresh shard each segment's stored bytes are live, discarded, moved or leaked, and the byte totals balance |
| `WriteAmp.WriteAmplification` | crates/ozd-engine/src/lib.rs:331-463 | for 0 < r <= 1, any interleaving and any aborts: r * rewritten <= (1 - r) * user + wasted and r * (user + rewritten) <= user + wasted, where wasted are copies whose row swap missed or never ran |
| `ByteCount.StepAppends` | crates/ozd-engine/src/lib.rs:331-607 | each put appends to the segments exactly what the account of user bytes gains, each copy what that of rewritten bytes gains, and no other step appends anything |
| `ByteCount.RunWastes` | crates/ozd-engine/src/lib.rs:383-430 | wasted are exactly the copied bytes whose rows were not swung |
| `ByteCount.AppendedBound` | crates/ozd-engine/src/lib.rs:331-463 | so in terms of the segments themselves: over every run, puts and copies together append at most what the puts append plus the copies whose rows were not swung, divided by r |
| `WriteAmp.CalmNothingWasted` | crates/ozd-engine/src/lib.rs:383-430 | wasted is zero when nothing comes between a record's liveness check and its move |
| `WriteAmp.SequentialWriteAmplification` | crates/ozd-engine/src/lib.rs:331-463 | then all appended bytes are at most user bytes / r: the documented factor 2 at r = 0.5 (ozd.example.toml:18) |
| `WriteAmp.SegmentConservation` | crates/ozd-engine/src/lib.rs:331-510 | in crash-free sequential runs a segment's stored bytes between passes are its live bytes plus its discard counter |
| `Engine.PutView` | crates/ozd-engine/src/lib.rs:527-607 | a put stores exactly the body and era under its key, inline or in a segment, compressed or not, and changes no other key |
| `Engine.DeleteView` | crates/ozd-engine/src/lib.rs:755-775 | a delete removes exactly its key |
| `Engine.SetObjView` | crates/ozd-engine/src/lib.rs:672-689 | upgrading a row's era changes that field of that key alone |
| `Engine.CasView` | crates/ozd-engine/src/lib.rs:400-430 | moving a row to a copy of its record leaves the map, era included, as it was |
| `Engine.UnlinkView` | crates/ozd-engine/src/lib.rs:440-463 | unlinking segments that no row points into leaves the map as it was |
| `Engine.EvictView` | crates/ozd-engine/src/lib.rs:633-670 | eviction drops exactly the keys whose rows point into the segment |
| `AddrRow.AddrRoundTrip` | crates/ozd-engine/src/lib.rs:59-106 | an index row is read back field by field, with and without the object length |
| `AddrRow.AddrRewritten` | crates/ozd-engine/src/lib.rs:75-106 | rewriting a current row gives its own bytes; a 22-byte legacy row gains a logical length equal to its stored length and no flags |
| `DiskEngines.DiskEngine.PutMeta` | crates/ozd-engine/src/lib.rs:527-623 | the put of the shard object is the put of the map and of the step model |
| `DiskEngines.DiskEngine.Delete` | crates/ozd-engine/src/lib.rs:755-775 | removes exactly the key and charges the row's bytes to its segment |
| `DiskEngines.DiskEngine.SetObjLogical` | crates/ozd-engine/src/lib.rs:672-689 | upgrades the row in place and says whether there was one |
| `DiskEngines.DiskEngine.Get` | crates/ozd-engine/src/lib.rs:699-742 | with nothing racing it, returns the map's body or reports absence exactly when the key is absent |
| `DiskEngines.DiskEngine.PickVictim` | crates/ozd-engine/src/lib.rs:339-365 | finds a sealed segment with the largest nonzero discard counter, or there is none |
| `DiskEngines.DiskEngine.SweepOrphans` | crates/ozd-engine/src/lib.rs:470-500 | unlinks exactly the sealed segments that no row points into and counts them; the map stays and the result is a run of the step model |
| `DiskEngines.DiskEngine.MoveRecord` | crates/ozd-engine/src/lib.rs:383-430 | one scan callback: a dead record is passed over, a live one is copied verbatim, its row swung and counted |
| `DiskEngines.DiskEngine.RewriteVictim` | crates/ozd-engine/src/lib.rs:369-463 | moves every live record and counts as many as rows pointed at the victim, flushes, unlinks the victim and drops its counter, as a run of the step model; no other segment goes |
| `DiskEngines.DiskEngine.CollectVictim` | crates/ozd-engine/src/lib.rs:347-463 | a victim that is collected had the largest discard counter and reached the ratio of its length; if none is, no sealed segment has a counter or one with the largest does not reach it |
| `DiskEngines.DiskEngine.GcOnce` | crates/ozd-engine/src/lib.rs:339-500 | a whole pass leaves the map as it was and is a run of the step model, so the byte bounds hold for it; the victim alone goes and is reported with its length and its live records; on every fifth pass, and on no other, just the sealed segments without a row are swept and counted |
| `DiskEngines.DiskEngine.EvictOldestSegment` | crates/ozd-engine/src/lib.rs:633-670 | the oldest sealed segment goes, with exactly the keys in it |
| `Segments.HeaderRoundTrip` | crates/ozd-engine/src/segment.rs:90-128 | a record header with fields in range is read back |
| `Segments.HeaderExact` | crates/ozd-engine/src/segment.rs:90-128 | twenty bytes parse to a header if and only if they are the encoding of that header with its fields in range, magic included |
| `Segments.ParseExact` | crates/ozd-engine/src/segment.rs:170-240 | a record parses at the front of a buffer if and only if the buffer begins with its encoding |
| `Segments.ParseWhole` | crates/ozd-engine/src/segment.rs:412-455 | a whole record at the front of a buffer parses to itself and its length |
| `Segments.ParseTorn` | crates/ozd-engine/src/segment.rs:170-240 | a record cut anywhere short of its end is never taken for a record, whatever the checksum function is |
| `Segments.OffsetsNameRecords` | crates/ozd-engine/src/segment.rs:282-315 | offsets and record numbers order records alike, which lets the engine model address by number |
| `Segments.ScanTorn` | crates/ozd-engine/src/segment.rs:170-240 | scanning a cut segment yields exactly the records wholly inside the cut with their offsets, and stops at the end of the last |
| `Segments.ScanExact` | crates/ozd-engine/src/segment.rs:170-240 | scanning any bytes at all yields the records the buffer begins with, at their offsets, and stops where no record follows |
| `Segments.RunUnique` | crates/ozd-engine/src/segment.rs:170-240 | there is only one such run of records |
| `Segments.ZerosIgnored` | crates/ozd-engine/src/segment.rs:170-240 | zeros left past the recovery point are never taken for records, whatever the checksum of nothing is |
| `Segments.ScanSealed` | crates/ozd-engine/src/segment.rs:412-455 | scanning a sealed segment yields all its records, which is what collection walks |
| `Segments.ReadBack` | crates/ozd-engine/src/segment.rs:460-477 | every record reads back at its offset with its checksum |
| `Segments.ReadVerified` | crates/ozd-engine/src/segment.rs:460-477 | a read of any file returns a body if and only if some key before it gives the checksum asked for, and reports a short file exactly when the file ends first |
| `Segments.RecoveryExact` | crates/ozd-engine/src/segment.rs:156-255 | for every record sequence and every cut at or after the flush offset, open recovers exactly the records past that offset that survived whole, truncates to them, and a second open gives the same; a directory never flushed, with or without a file, counts as segment 0 at offset 0 |
| `Segments.OpenExact` | crates/ozd-engine/src/segment.rs:156-255 | for every directory, whatever its bytes: open recovers exactly the run of records that follows the recovery point, cuts the file behind it and leaves every other file as it was |
| `Segments.OpenEmpty` | crates/ozd-engine/src/segment.rs:174-194 | a new directory opens as an empty segment 0 with nothing recovered |
| `Segments.WriterAtEnd` | crates/ozd-engine/src/segment.rs:187-236 | for every directory, whatever its bytes, open leaves the writer at the end of the file if and only if the recovery point is not past it |
| `Segments.ShortFile` | crates/ozd-engine/src/segment.rs:187-236 | with a file shorter than the recovery point nothing is recovered, the file stays as it is and the writer stands past its end |
| `Segments.WriterPastEnd` | crates/ozd-engine/src/segment.rs:187-236 | such a directory: a recovery point at 5 and no file |
| `Segments.SegmentWriter.Open` | crates/ozd-engine/src/segment.rs:156-255 | the writer of any directory opens as that function says, with nothing unflushed; after a stop it is valid and holds the surviving records |
| `Segments.SegmentWriter.StopReopens` | crates/ozd-engine/src/segment.rs:156-376 | a stop of any valid writer that keeps the file up to the recovery point on disk leaves a directory of that kind |
| `Segments.SegmentWriter.Flush` | crates/ozd-engine/src/segment.rs:321-336 | if anything is unflushed, syncs the file and moves the recovery point to the end, otherwise does nothing |
| `Segments.SegmentWriter.Rotate` | crates/ozd-engine/src/segment.rs:338-376 | flushes, then starts the next segment number; the sealed file is wholly synced if anything was appended to it since open |
| `Segments.SegmentWriter.Append` | crates/ozd-engine/src/segment.rs:261-315 | appends one record at the returned offset, rotating first when full; which files are synced and where the recovery point is are given exactly |
| `Segments.SegmentWriter.WriteRecord` | crates/ozd-engine/src/segment.rs:261-315 | appends to the active file and flushes exactly when enough records are unflushed |
| `Recovery.CrashKeeps` | crates/ozd-engine/src/lib.rs:194-226 | a stop that takes back any unsynced records, of any segment, keeps the whole map, every row readable, exactly when no row points past what survived |
| `Recovery.CasOpensWindow` | crates/ozd-engine/src/lib.rs:400-450 | before a row swap its key is durable exactly when its old record is, after it exactly when the copy is: then no stop can take that record back |
| `StopWindow.WindowReached` | crates/ozd-engine/src/lib.rs:339-450 | two puts, a delete, a rotation and half a pass from a fresh shard reach a swap after which a stop loses a durable key, against the comment at lines 331-338 |
| `Recovery.FlushClosesWindow` | crates/ozd-engine/src/lib.rs:444-446 | after the flush that precedes the unlink every key is durable if and only if each row was durable or points into an active segment whose flush offset is not at its end; so it is if the only unsynced records an open took over are in the active segment and something was appended since |
| `Recovery.RotateSyncs` | crates/ozd-engine/src/segment.rs:338-376 | a rotation leaves all records of the segment it seals durable if its flush finds the flush offset before the end, otherwise only those before the recovery point |
| `Recovery.FlushOfRun` | crates/ozd-engine/src/lib.rs:339-446 | in every run from a fresh shard without a reopening every key is durable after that flush |
| `StopWindow.ReopenLoses` | crates/ozd-engine/src/segment.rs:236-324 | the process stops after that swap and loses nothing; open takes the copy over without a sync, the next pass's flush returns at once, the victim is unlinked and no durable copy is left |
| `Recovery.ReplayRow` | crates/ozd-engine/src/lib.rs:194-226 | after the replay a key has the row of its last record past the recovery point, or its old row when it has none |
| `Recovery.ReplayKeepsView` | crates/ozd-engine/src/lib.rs:194-226 | replay keeps the map exactly when each key with a record past the recovery point lives inline or still stands for the last such record |
| `Recovery.ReplayResurrects` | crates/ozd-engine/src/lib.rs:194-226 | a deleted key is back after the next open if and only if it has a record past the recovery point |
| `ReplayRuns.RunReplaysToItself` | crates/ozd-engine/src/lib.rs:194-226 | from any state just flushed replay keeps the map after every run in which no key with such a record is deleted or evicted, no record is copied after its key moved on, no put loses its commit, and eras are those the bodies carry |
| `ReplayRuns.StepReplayable` | crates/ozd-engine/src/lib.rs:194-226 | each such step keeps every key standing for its last such record |
| `Reopened.ReopenedShown` | crates/ozd-engine/src/lib.rs:194-226 | after a stop and the replay, what lookups find is in order if and only if no row they find lost its record for good and the records replayed for keys not inline decode |
| `Reopened.ReopenedWell` | crates/ozd-engine/src/lib.rs:194-226 | and no key is in both tables, as the other theorems ask, if and only if besides no inline key has a surviving record past the recovery point |
| `Reopened.ReopenedKey` | crates/ozd-engine/src/lib.rs:194-226 | then each key not inline has the value of its last replayed record, every other what it had |
| `Reopened.StepSafeShown` | crates/ozd-engine/src/lib.rs:288-303 | also with keys in both tables each step keeps what lookups find in order and changes the map only as the user asked |
| `Reopened.RunRefinesShown` | crates/ozd-engine/src/lib.rs:331-463 | so every run of a reopened shard, keys in both tables included, changes the map by the user operations alone |
| `Reopened.LifeSafe` | crates/ozd-engine/src/lib.rs:194-463 | a shard stays in order through any number of runs, stops and reopenings whose stops meet that condition |
| `SplitPuts.PutIsBoth` | crates/ozd-engine/src/lib.rs:567-607 | append and index commit with nothing in between are the put of the other theorems |
| `SplitPuts.CommitSafe` | crates/ozd-engine/src/lib.rs:567-607 | with anything in between, the commit leaves the shard in order if and only if its segment is still there and the collector has not gone past its record; it then sets exactly its key |
| `SplitPuts.SplitRefinesMap` | crates/ozd-engine/src/lib.rs:331-607 | over every run of appends, commits and other steps whose commits are in time, the map is what the commits and the other operations make of it |
| `SplitPuts.SplitReplaysToItself` | crates/ozd-engine/src/lib.rs:194-226 | and replay keeps the map when besides each commit finds no later record of its key past the recovery point |
| `StopWindow.SweepLosesPut` | crates/ozd-engine/src/lib.rs:465-500 | a put appends, its segment is sealed and swept as unreferenced, and then its commit succeeds: the body is gone, against the comment at lines 468-469 |
| `SplitSweep.LateUnlink` | crates/ozd-engine/src/lib.rs:470-500 | with users active between the sweep's reference scan and its unlinks, an unlink keeps every row readable if and only if no row points there by then, which is certain for segments sealed before the scan |
| `StopWindow.SweepRace` | crates/ozd-engine/src/lib.rs:470-500 | for one sealed later it is not: two completed puts are swept away |
| `SplitSweep.LateEvict` | crates/ozd-engine/src/lib.rs:633-668 | with users active between an eviction's scan and its drop of the rows every row stays readable, and just the keys in the segment are dropped if and only if no key found there has been put into another segment since |
| `StopWindow.EvictRace` | crates/ozd-engine/src/lib.rs:633-668 | one that has loses its new body |
| `Pieces.PieceRoundTrip` | crates/ozd-domain/src/piece.rs:25-58 | a header and stripe parse back exactly when the counts are nonzero, the index is below their byte sum and the stripe has the length the header implies |
| `Pieces.PieceExact` | crates/ozd-domain/src/piece.rs:39-58 | a body parses as a piece if and only if it begins with the encoding of that header, magic and version included, the header is in range and the length is the one it implies |
| `Erasure.PiecesParse` | crates/ozd-app/src/erasure.rs:56-88 | for K, M >= 1, K + M <= 255 each piece of a nonempty body parses to its own header, and no piece of an empty body parses |
| `Erasure.TooManyPieces` | crates/ozd-domain/src/piece.rs:39-58 | with K + M = 256 the byte sum wraps to zero and no piece parses |
| `Erasure.RoundTrip` | crates/ozd-app/src/erasure.rs:91-143 | decoding any K or more of the K + M pieces returns the body through padding and truncation on both paths; fewer fail, none fail differently |
| `Erasure.RepairExact` | crates/ozd-app/src/erasure.rs:146-157 | rebuilding from any K pieces returns the original K + M pieces byte for byte |
| `Erasure.EcDecode` | crates/ozd-app/src/erasure.rs:91-143 | the decoding loop computes the decoder of those theorems, its errors included |
| `Erasure.ContractSatisfiable` | crates/ozd-app/src/erasure.rs:50-54 | the contract assumed of the code (data stripes kept, any K of K + M determine the rest) is met for every K with one parity stripe that brings each column's byte sum to zero |
| `PoolRead.GetExact` | crates/ozd-app/src/pool.rs:1270-1395 | a read returns the body exactly when K distinct pieces are reachable, or the first answering rank has the raw body, or no rank answers and some other shard has it |
| `PoolRead.GetOtherCounts` | crates/ozd-app/src/pool.rs:1268-1395 | the same for pieces of any other K and M, as after a change of the configuration: the counts are those of the headers found |
| `PoolRead.CollectEnough` | crates/ozd-app/src/pool.rs:1328-1395 | gathering from a probed piece finds K pieces through data ranks, parity ranks and strays exactly when K distinct ones are reachable |
| `PoolRead.CollectSound` | crates/ozd-app/src/pool.rs:1328-1395 | whatever the shards answer, corrupt or foreign pieces included, the probed piece keeps its slot and every other filled slot has an answer that is a piece of that index, which nothing found later replaces |
| `PoolRead.EncodeCodes` | crates/ozd-app/src/erasure.rs:56-88 | the pieces encoding makes of a nonempty raw body are such as the pool theorems assume |
| `KeyPools.KeyPool.Read` | crates/ozd-app/src/pool.rs:1270-1323 | the probe and the full scan compute the read of those theorems for the shards that answer |
| `KeyPools.KeyPool.GatherEc` | crates/ozd-app/src/pool.rs:1328-1395 | the three gathering phases compute its piece collection |
| `PoolWrite.MirroredReads` | crates/ozd-app/src/pool.rs:1051-1160 | a key with a raw leg and no other kind of leg reads as the body, whatever its tail ranks hold |
| `PoolWrite.HalfMigratedReads` | crates/ozd-app/src/pool.rs:1161-1190 | with the whole tail in place and each leg raw, own piece or empty, but not all empty, the key is readable when M >= R - 1 |
| `PoolWrite.FirstHead` | crates/ozd-app/src/pool.rs:1161-1190 | with the tail in place under a full mirror, the state after the first head write is readable if and only if M >= R - 1, which the configuration does not require |
| `PoolWrite.MigrationNeedsParity` | crates/ozd-app/src/pool.rs:1161-1190 | so is any placement with the tail, the first head piece and raw legs behind it |
| `PoolWrite.TooFewParityPieces` | crates/ozd-app/src/pool.rs:1051-1190 | such a mirror exists: a 3 + 1 code over three legs |
| `KeyPools.KeyPool.WriteHeads` | crates/ozd-app/src/pool.rs:1161-1180 | only legs change, each to its own piece; the first state it goes through is the one with the first leg overwritten, if that leg takes writes |
| `KeyPools.KeyPool.MigrateKey` | crates/ozd-app/src/pool.rs:1051-1190 | it writes only when a leg answers with a raw body large enough and no tail shard has the key, and then that body's pieces; a key whose legs answer with pieces, of whatever code, is never touched; each way of leaving early is an if-and-only-if, for any faults. From a mirrored key, after every shard call, whichever calls fail and wherever it stops, the body is readable when M >= R - 1, and from a full mirror whose first leg takes its piece a migration passes only readable states if and only if M >= R - 1; a failed or corrupted tail write leaves the mirror as it was, is rolled back and decides the outcome; a fully written result, strays cleared or not, survives the loss of any M shards |
| `KeyPools.KeyPool.PlanMigration` | crates/ozd-app/src/pool.rs:1051-1131 | the checks before the first write, whatever the shards hold and whichever calls fail: skipped as coded, skipped as small or gone on with, each if and only if its condition on the answers holds |
| `KeyPools.KeyPool.WriteTail` | crates/ozd-app/src/pool.rs:1132-1145 | writes and compares the tail pieces, touching only tail ranks; the first that fails or answers with other bytes decides the result, and success means each tail rank holds its piece |
| `KeyPools.KeyPool.RollBack` | crates/ozd-app/src/pool.rs:1145-1160 | empties the tail ranks whose shard takes deletes and touches nothing else |
| `PoolWrite.SurvivesLoss` | crates/ozd-app/src/pool.rs:1270-1395 | with W distinct pieces in place the body is readable when any W - K shards stop answering |
| `PoolWrite.FullyCodedSurvives` | crates/ozd-app/src/pool.rs:1270-1395 | with every piece at its rank the body is readable when any M shards stop answering |
| `KeyPools.KeyPool.PutEc` | crates/ozd-app/src/pool.rs:1194-1264 | on a fresh key it succeeds exactly when at least the quorum of distinct pieces is stored, handoff included, every healthy target has its own piece, a failure means every ranked shard was used, and any quorum - K shards may then stop answering |
| `KeyPools.KeyPool.RepairKeyEc` | crates/ozd-app/src/pool.rs:570-638 | with the counts of the header found, from any placement and with any number of targets it works exactly when K distinct pieces answer; then every rank whose shard takes writes has its own piece and nothing else changes, and it reports exactly how many ranks it wrote and how many it could not; ranks that all answer with pieces of their own index are left alone; from a canonical placement the body stays readable after every write |
| `KeyPools.KeyPool.RepairKey` | crates/ozd-app/src/pool.rs:520-567 | a key that passes the health test is not touched; otherwise the first answer, by rank and then off the targets, decides: a raw body is copied to the legs, a piece leads to the repair of its code, no answer is an error. A readable key stays readable after every write unless a leg that holds a piece says it has nothing |
| `KeyPools.KeyPool.RepairMirror` | crates/ozd-app/src/pool.rs:641-680 | exactly the legs that do not say they have the key get the body, as far as they take writes, and the others are counted |
| `MirrorFill.FillExact` | crates/ozd-app/src/pool.rs:641-680 | after any number of those writes the key is readable if and only if K distinct pieces are left on shards not written, or the body comes before every piece left, or no target holds anything and another shard has the body |
| `MirrorFill.FillKeepsReadable` | crates/ozd-app/src/pool.rs:641-680 | so each of them keeps a readable key readable if no leg that holds a piece denies it |
| `MirrorFill.DeafPieceLost` | crates/ozd-app/src/pool.rs:524-545 | if one does, the key can be lost: a half-migrated 2 + 1 key, readable before, of which the repair leaves one piece |
| `PoolRepair.RepairSafeWhenAnchored` | crates/ozd-app/src/pool.rs:622-634 | whichever repair writes fail no piece is lost, if and only if each reachable piece is at its own rank or off the targets |
| `PoolRepair.NotAnchoredLoses` | crates/ozd-app/src/pool.rs:622-634 | a piece that is not is lost when only the write to its own rank fails |
| `PoolRepair.SwappedPiecesLost` | crates/ozd-app/src/pool.rs:622-634 | two swapped pieces of a 2 + 1 code: after the first write one distinct piece is left of the two needed |
| `PoolRepair.RepairKeepsReadable` | crates/ozd-app/src/pool.rs:570-638 | from a canonical placement every prefix of the repair's writes leaves the body readable |
| `PoolRepair.HealthyMeans` | crates/ozd-app/src/pool.rs:524-545 | a key is passed over as healthy exactly when every rank there is holds something, or all K + M ranks are there, every leg holds something and no tail rank does |
| `PoolLoss.LossTolerance` | crates/ozd-app/src/pool.rs:1270-1395 | a placement on its ranks stands the loss of any t shards if and only if t is below the raw ranks in front of the first piece plus the pieces beyond K - 1 (for K = 1, below all that is held) |
| `PoolLoss.RawLegsCost` | crates/ozd-app/src/pool.rs:1161-1190 | so a key that failed head writes left with w raw legs behind its first piece stands exactly M - w losses, and the health test passes it over |
| `PoolLoss.RepairReaches` | crates/ozd-app/src/pool.rs:622-634 | after the repair of any placement a piece is reachable if and only if its own write succeeded, a shard off the targets has it, or a rank whose write failed had it |
| `PoolLoss.FewFailuresKeep` | crates/ozd-app/src/pool.rs:622-634 | so with at most M failing writes the object stays decodable from any placement; `PoolRepair.SwappedPiecesLost` has M + 1 |
| `PoolRepair.TailLossIgnored` | crates/ozd-app/src/pool.rs:539-545 | so, for K <= R, an erasure-coded key that lost exactly its tail is left unrepaired although it could be rebuilt |
| `HealDrain.Bulkhead` | crates/ozd-app/src/pool.rs:331-373 | in every interleaving no shard serves more than cap repairs at once nor has more than cap slot holders |
| `HealDrain.DrainResult` | crates/ozd-app/src/pool.rs:331-386 | when the workers are done every slot is free and each entry was healed or put off exactly once, so the two counts add up to the batch |
| `HealDrain.DrainOutcome` | crates/ozd-app/src/pool.rs:331-386 | then an entry is among the healed if and only if its repair succeeded, and goes back to the queue if and only if its repair failed or a shard it needs was full |
| `HealDrain.RunLists` | crates/ozd-app/src/pool.rs:331-373 | after every run, finished or not, the two lists hold an entry once for each such step, counting those a worker is about to list |
| `HealDrain.HealedSucceeded` | crates/ozd-app/src/pool.rs:331-373 | so at no time is anything listed as healed whose repair has not succeeded |
| `HealDrain.DrainEnds` | crates/ozd-app/src/pool.rs:331-373 | no run is longer than a budget fixed at its start and a worker that is not done can always move |
| `HealDrain.AloneNeverFull` | crates/ozd-app/src/pool.rs:344-363 | a single worker never puts an entry off for lack of slots |
| `HealDrain.StepSlots` | crates/ozd-app/src/pool.rs:344-368 | every atomic step keeps each shard's counter equal to what the workers have added and not taken back |
| `HealQueues.PopTakesFirst` | crates/ozd-app/src/pool.rs:150-167 | a pop takes a queued key of highest priority with its latest priority, ties by the smallest number among matching items, and unqueues it; it yields nothing only when nothing is queued |
| `HealQueues.PopAllSorted` | crates/ozd-app/src/pool.rs:150-167 | emptying the queue yields each queued key once, by falling priority |
| `HealQueues.PushSound` | crates/ozd-app/src/pool.rs:137-149 | a push keeps an item for every queued key and the bound of 100000 keys |
| `HealQueues.FifoExactly` | crates/ozd-app/src/pool.rs:116-171 | emptied, the queue yields the keys of each priority in the order of their last pushes if and only if, within each priority, keys are ordered alike by their earliest matching items and by their last pushes |
| `HealQueues.PushNumbers` | crates/ozd-app/src/pool.rs:139-150 | a push that changes the queue makes its key the last pushed and leaves the order of the others |
| `HealQueues.PopAllFirst` | crates/ozd-app/src/pool.rs:151-167 | emptying yields each key by its earliest matching item, ascending within a priority |
| `HealQueues.FifoWithoutStale` | crates/ozd-app/src/pool.rs:116-171 | in particular while no queued key has two matching items |
| `HealQueues.StaleCopyJumps` | crates/ozd-app/src/pool.rs:116-171 | a copy left from an earlier stay lets a key pushed last leave before one that waited, against the comment at line 118 |
| `HealQueues.HealQueue.Push` | crates/ozd-app/src/pool.rs:137-149 | the queue object's push is the push of those lemmas |
| `HealQueues.HealQueue.Pop` | crates/ozd-app/src/pool.rs:150-167 | its pop loop is their pop |
| `SingleFlight.StepKeeps` | crates/ozd-app/src/cache.rs:91-191 | every atomic step of every thread keeps the table of flights consistent with its leaders and waiters |
| `SingleFlight.OneReader` | crates/ozd-app/src/cache.rs:91-191 | in every run at most one thread is inside the read-through of a key |
| `SingleFlight.LeavesPublished` | crates/ozd-app/src/cache.rs:155-177 | a flight leaves the table only by its own leader, after its answer is published |
| `SingleFlight.SharedAnswer` | crates/ozd-app/src/cache.rs:155-191 | every get returns what its flight's leader published |
| `SingleFlight.ReturnsInner` | crates/ozd-app/src/cache.rs:91-110 | a body returned is the inner store's, whether the cached copy was present, evicted or bad |
| `SingleFlight.NoneStranded` | crates/ozd-app/src/cache.rs:155-191 | a waiter's flight has an answer or a leader still at work on it |
| `SingleFlight.MissedExactly` | crates/ozd-app/src/cache.rs:91-191 | a get that starts with its key present can be told that it is absent if and only if the flight it joins has a leader that found the key absent and has not yet left the table |
| `SingleFlight.PresentIsSeen` | crates/ozd-app/src/cache.rs:91-191 | otherwise its flight is never answered with absence |
| `SingleFlight.LiveNotDoomed` | crates/ozd-app/src/cache.rs:91-191 | a flight that began with the key present has no such leader |
| `SingleFlight.PresentIsReturned` | crates/ozd-app/src/cache.rs:91-191 | and returns the inner body when the inner store answers |
| `SingleFlight.OnlyInnerFails` | crates/ozd-app/src/cache.rs:91-110 | a bad or failing cached copy never makes a read fail |
| `SingleFlight.CacheServes` | crates/ozd-app/src/cache.rs:91-110 | a good cached copy that answers decides its flight, for the leader and everyone waiting, whatever the inner store does; any other is read through |
| `SingleFlight.InnerServes` | crates/ozd-app/src/cache.rs:91-110 | what the inner store answers a leader, its failure and absence included, is what everyone waiting for the flight gets, whatever the cache does then |
| `SingleFlight.CallsEnd` | crates/ozd-app/src/cache.rs:91-191 | in every run a thread takes at most seven steps for each get or put it begins |
| `SingleFlight.CanMove` | crates/ozd-app/src/cache.rs:91-191 | and in every reachable state a thread that is neither idle nor waiting for a flight can take one |
| `SingleFlight.SpoiltIsReadThrough` | crates/ozd-app/src/cache.rs:91-110 | a cached copy evicted, spoilt or dropped after a failed read never answers again: until the cache is filled anew every leader asks the inner store |
| `SingleFlight.CopyStays` | crates/ozd-app/src/cache.rs:91-152 | no other step touches the cached copy |
| `SingleFlight.PutCanBeMissed` | crates/ozd-app/src/cache.rs:155-197 | a get that starts after a put returned can be told the key is absent, by joining a flight that began before the put |
| `RollingP99s.BucketBounds` | crates/ozd-app/src/latency.rs:30-32 | a latency lies at or above its bucket's lower bound and below the upper one, the last bucket excepted |
| `RollingP99s.RankInBucket` | crates/ozd-app/src/latency.rs:68-84 | the first bucket at which the running count reaches the rank is the bucket of the rank's latency |
| `RollingP99s.RankExists` | crates/ozd-app/src/latency.rs:68-84 | there is a nearest-rank latency for every rank among the samples |
| `RollingP99s.RollingP99.Percentile` | crates/ozd-app/src/latency.rs:68-84 | returns nothing exactly below the minimum count; otherwise the result u and the true nearest-rank 99th percentile q satisfy u / 2 <= max(q, 1), and max(q, 1) < u for q < 2^22; the fallthrough is unreachable |
| `RollingP99s.RollingP99.MaybeRotate` | crates/ozd-app/src/latency.rs:86-111 | rotation keeps each epoch's counters equal to the samples it stands for |
| `RollingP99s.RollingP99.RecordAt` | crates/ozd-app/src/latency.rs:61-66 | adds exactly one sample |
| `RollingP99s.RollingP99.P99At` | crates/ozd-app/src/latency.rs:68-84 | no sample is forgotten before it is a window old and none is counted at three windows or more |
| `Throttle.RateKept` | crates/ozd-app/src/throttle.rs:99-114 | the rate stays between its limits; busy, it falls unless at the floor, by at most half; quiet, it rises unless at the ceiling |
| `Throttle.BusyYields` | crates/ozd-app/src/throttle.rs:99-104 | under a lasting busy foreground it halves window by window down to the floor |
| `Throttle.QuietRecovers` | crates/ozd-app/src/throttle.rs:104-110 | ten quiet windows bring any rate back to the ceiling |
| `Throttle.DelayPays` | crates/ozd-app/src/throttle.rs:117-126 | once the delay for a debt has passed, everything charged fits max * (1 + elapsed seconds) |
| `Throttle.BgThrottle.AcquireDelay` | crates/ozd-app/src/throttle.rs:96-127 | the whole new state, and that bound for every history of calls |
| `Throttle.BgThrottle.constructor` | crates/ozd-app/src/throttle.rs:59-73 | starts at the ceiling with one second's tokens |
| `Throttle.DebtHalves` | crates/ozd-app/src/throttle.rs:96-127 | a debt slept off is at least half paid even if the rate halves meanwhile |
| `Throttle.PacedCall` | crates/ozd-app/src/throttle.rs:83-92 | a worker charging at most c bytes at a time and sleeping off its delays never sleeps longer than 2c / min |
| `Calendar.CivilIsCalendar` | crates/ozd-admin/src/lib.rs:742-763 | the date of every day since 1970 agrees with stepping the proleptic Gregorian calendar day by day |
| `Calendar.CivilStep` | crates/ozd-admin/src/lib.rs:750-760 | the next day's date is the calendar's next date |
| `Calendar.AmzInverts` | crates/ozd-ipfs/src/sigv4.rs:107-116 | the request-date formula takes every date back to its day |
| `Snapshots.AmzRoundTrip` | crates/ozd-ipfs/src/sigv4.rs:101-117 | the text of any second up to the year 9999 is read back as that second |
| `Snapshots.AmzAccepts` | crates/ozd-ipfs/src/sigv4.rs:101-107 | a request date is accepted if and only if it has sixteen characters, the separators in place and six numbers between them |
| `Snapshots.NamesInTimeOrder` | crates/ozd-admin/src/lib.rs:742-763 | up to the year 9999 snapshot names sort exactly in time order |
| `Snapshots.OrderedUntil` | crates/ozd-admin/src/lib.rs:742-763 | the names of all seconds up to n are in time order if and only if n is no later than the year 9999 |
| `Snapshots.YearTenThousand` | crates/ozd-admin/src/lib.rs:742-763 | the first name of the year 10000 sorts before the last of 9999 |
| `Snapshots.DeleteOld` | crates/ozd-admin/src/lib.rs:665-716 | keeps min(keep, n) snapshots and deletes the others, none sorting after one kept; keep = 0 is refused |
| `Snapshots.NewestKept` | crates/ozd-admin/src/lib.rs:690-704 | so nothing deleted is newer than anything left |
| `Placement.SelectsBest` | crates/ozd-app/src/placement.rs:33-68 | select returns distinct eligible shards, as many as asked for or all, none scoring below one left out |
| `Placement.SelectsRoomy` | crates/ozd-app/src/placement.rs:33-68 | a shard that has faulted or is full is never selected, and asked for enough, every other one is |
| `Placement.SelectPrefix` | crates/ozd-app/src/placement.rs:65-66 | the top R are the first of the top N for R <= N |
| `Placement.AddMovesLittle` | crates/ozd-app/src/placement.rs:33-68 | adding a shard anywhere in the topology leaves the top n as they were or puts only that shard among them and drops at most the last |
| `Listing.EngineList` | crates/ozd-engine/src/lib.rs:777-830 | a page is what the two scans give, merged, without duplicates and cut; from a cursor that is absent, not before the prefix, or the key just before it, that is the first limit keys of both tables with the prefix after the cursor |
| `Listing.CursorExactly` | crates/ozd-engine/src/lib.rs:777-830 | those are exactly the cursors from which every page of every engine is right |
| `Listing.ScanTable` | crates/ozd-engine/src/lib.rs:803-823 | the loop returns the rows from the first not before the start to the first without the prefix or past the limit |
| `Listing.ScanIsPage` | crates/ozd-engine/src/lib.rs:803-823 | from such a cursor those rows are the first keys due, at least as many as the limit if there are |
| `Listing.BadCursor` | crates/ozd-engine/src/lib.rs:785-830 | from any other cursor an engine holding the cursor's successor and the prefix itself as keys gives an empty page although the prefix is due |
| `Listing.MergedFirst` | crates/ozd-app/src/pool.rs:1650-1664 | the first limit keys of merged pages are the first of the union |
| `Listing.WalkOn` | crates/ozd-app/src/pool.rs:743-771 | each page moves the cursor past exactly its keys; a short one leaves nothing |
| `Resilver.MirrorPool.List` | crates/ozd-app/src/pool.rs:1650-1664 | the pool's page is the first limit keys of the union of the shards after the cursor; a shard that cannot list fails it |
| `Resilver.MirrorPool.ReadForRepair` | crates/ozd-app/src/pool.rs:682-696 | the first readable copy of the wanted shards that say they have it, else of all shards in order; none exactly when no shard can read it |
| `Resilver.MirrorPool.RepairKey` | crates/ozd-app/src/pool.rs:641-680 | exactly the wanted shards that do not say they have the key get that copy, as far as they take it, and no other key changes; it counts those that took it and those that did not; no copies left over means it is on all of them; in place means (0, 0) |
| `Resilver.MirrorPool.CopyTo` | crates/ozd-app/src/pool.rs:666-676 | each missing shard that takes writes gets the body, the others are counted |
| `Resilver.MirrorPool.ResilverStep` | crates/ozd-app/src/pool.rs:488-518 | one batch: each key of the page ends as repairing it alone at the start would leave it, no other key changes, and the copies and errors reported are the sums of what each would have counted then; it reports scanned, done and the last key |
| `Resilver.MirrorPool.ResilverFull` | crates/ozd-app/src/pool.rs:743-771 | the walk ends and visits exactly the keys past its cursor, each once; the same holds for the whole walk and its totals; with no error counted all are on their shards; if they all were it changes nothing |
| `Base32.DigitsCarry` | crates/ozd-app/src/car.rs:30-46 | the digits carry exactly the data's bits followed by fewer than five zeros |
| `Base32.RoundTrip` | crates/ozd-app/src/car.rs:30-66 | decoding undoes encoding for every byte string |
| `Base32.DecodeExact` | crates/ozd-app/src/car.rs:48-66 | a text decodes if and only if it is the symbols of some digits |
| `Base32.EncodeText` | crates/ozd-app/src/car.rs:30-46 | the encoding loop computes that encoding, its 64-bit accumulator dropping high bits |
| `Base32.DecodeText` | crates/ozd-app/src/car.rs:48-66 | the decoding loop computes that decoding |
| `Varint.RoundTrip` | crates/ozd-app/src/car.rs:68-103 | a number written is read back if and only if it is below 2^63; above, the reader reports overflow |
| `Varint.ReadVarint` | crates/ozd-app/src/car.rs:68-94 | the reading loop computes that read |
| `Varint.WriteVarint` | crates/ozd-app/src/car.rs:93-103 | the writing loop computes that encoding |
| `Car.CidParses` | crates/ozd-app/src/car.rs:122-140 | the identifier written for a well-formed multihash is read back whatever follows |
| `Car.CidExact` | crates/ozd-app/src/car.rs:122-140 | an identifier is found at the front of a frame if and only if it is there: a bare sha2-256 multihash, or version 1 and any codec before a well-formed multihash |
| `Car.KeyDecodes` | crates/ozd-app/src/car.rs:288-306 | every key made from a multihash gives it back, the empty one included |
| `Car.Export` | crates/ozd-app/src/car.rs:270-315 | pages through exactly the keys under the prefix in order and writes the header and their frames; fails only on a key that does not decode |
| `Car.Import` | crates/ozd-app/src/car.rs:168-262 | the reading loop keeps, skips or counts as corrupt frame by frame as the import function says |
| `Car.CorruptDropped` | crates/ozd-app/src/car.rs:227-250 | a frame that carries no identifier or, when verifying, whose body does not match its digest is counted and changes nothing |
| `Car.ImportSound` | crates/ozd-app/src/car.rs:168-262 | whatever the stream, every block that was there stays, every block added has the multihash that names it and, when verifying, that its body has, and as many are added as are reported |
| `Car.ImportUndoesExport` | crates/ozd-app/src/car.rs:168-315 | importing an export into an empty store gives exactly the blocks under the prefix, and importing it again changes nothing and skips every block |
| `Car.FramesOfExportable` | crates/ozd-app/src/car.rs:288-306 | exportable keys always have frames |

## Left out

- DiskEngines.DiskEngine.EvictOldestSegment: the method has nothing racing it; users between its scan and its drop of the rows are `SplitSweep.LateEvict`.
- DiskEngines.DiskEngine.Get: the racing case is `GcRuns.GetIsAtomic`; the method itself has nothing racing it.
- DiskEngines.DiskEngine.SweepOrphans: the method has nothing racing it; users between its scan and its unlinks are `SplitSweep.LateUnlink`, a put between append and commit `SplitPuts.CommitSafe`.
- ReplayRuns.RunReplaysToItself: a put is one step, so a collector copy between its append and its commit is not covered here but in `SplitPuts.SplitReplaysToItself`.
- Byte accounts after a reopening that leaves keys in both tables, and of a put between its append and its commit: the accounts of `WriteAmp.dfy` are those of runs of whole puts from a fresh shard.
- KeyPools.KeyPool.MigrateKey: a head write that silently stores other bytes is excluded from the readability claim, because the code only queues a repair for it; the era-field upgrade of rows it skips is `DiskEngine.SetObjLogical`.
- KeyPools.KeyPool.RepairKey: a stored piece is taken to have the counts of some code, K and M at least 1 and K + M at most 255; a body that merely looks like a piece of none is not covered.
- Car.Import: blocks are kept one after another; two workers importing the same key at once are not modelled.
- RollingP99s.RollingP99.RecordAt: calls are whole; a rotation between its two counter additions is not modelled.
- Listing.EngineList: lists keys; the sizes listed beside them are not modelled.
- Placement.SelectsBest: the score is any function of a shard, so that a larger weight tends to win is not stated.
- Resilver.MirrorPool.ResilverFull: mirror mode only; the saved cursor is the start parameter; a shard call for a key fails or not throughout one walk.
- Failover directories, the ballast file and the out-of-space retry: they need a byte-level model of file errors.
- Failed syncs: a flush succeeds or changes nothing.
- Hedged reads, thread spawning and the order in which shard answers arrive: only the set of answers matters.
- Which operations queue a key for repair; the queue itself is `HealQueue.dfy`.
- Changes of a key's ranking during a read, overwriting a key with another body, and deletes racing a cache fill.
- The mirror write path with its quorum and handoff, the outboard objects and the verified range reads.
- The cache's byte counter and its eviction threshold; evictions may happen at any time in the model.
- `update_config` of the throttle, which clamps the rate but keeps the old limits.
- Health states, slow-disk detection, metrics, rate limiting, configuration loading, HTTP routing, the admin surface and request signatures: plumbing or easy members.
