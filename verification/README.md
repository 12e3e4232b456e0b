# Verified models of an Android toolbox

This project models the parts of the toolbox with the most state, interleaving and index arithmetic, and proves
what they are for. `dafny verify dfyconfig.toml` checks all of it.

| files | what they model |
|---|---|
| `FileWriter.dfy`, `AsyncFileWriter.dfy`, `AsyncFileWriterProgress.dfy`, `AsyncFileWriterCalls.dfy`, `FileWriterWorker.dfy` | the two-thread asynchronous file writer: a bounded ring, a FIFO message queue, and a worker that re-posts work to itself. The interleaving of the two threads is a state machine with one step per access to shared state; the file stream, `handleWrite` and `handleClose` are also given as classes with their loops |
| `MessageDispatcher.dfy` | two mutually inverse listener indexes whose listeners are held weakly and may die at any moment, also in the middle of a sweep |
| `DirectoryStream.dfy`, `VersionCompare.dfy` | the directory stream with one entry of look-ahead and hash positions, and the comparator `strverscmp` |
| `Crc.dfy`, `AssetsUtil.dfy` | copying an asset through a temp file and a rename, with failures at every step, and the CRC cache that survives process death and package updates |
| `Frames.dfy`, `Samples.dfy`, `Resample.dfy`, `LinearResample.dfy`, `ByteUtil.dfy`, `NativeResample.dfy` | four separately written sample rate converters and the laws between them |
| `MsgQueueBridge.dfy` | the JNI message queue bridge: buffer reuse and growth, bounded retry, exit flag |
| `HexUtil.dfy` | hexadecimal printing and parsing with any delimiter |
| `TagFinder.dfy` | the soft-reference LRU cache over the class walk that finds a log tag |
| `Results.dfy`, `JavaStrings.dfy` | Option, Result, `String.trim` |

Nondeterministic choices (`*`) stand for the environment: whether a file operation fails, what the garbage collector
clears, what the native queue answers, how many bytes a read delivers. On a device declared `healthy` no file operation
fails, and copying an existing asset then has exactly one result. Where a decision has to be shared by a class
and a specification function it is an argument instead (`Io`, `Chance`).

Points where a reader might expect otherwise:

- The hexadecimal round trip holds for more delimiters than those with a character outside 0-9a-f. `RoundTripExactly`
  gives the exact set, with failing inputs for every other delimiter.
- A dead listener can leave an entry behind under a tag that is registered again later (it died between the two halves
  of a sweep; `StaleEntry`). Counting all entries of a tag is therefore not a correct consistency condition; counting
  those of live listeners is. `PlainCountExactly` says when the plain count is right.
- A write never looks at the closed flag again once it has started. When a file operation fails meanwhile, the worker
  closes and releases the ring under it, and the write stays in its loop until copies into the released ring take its
  bytes (`StuckExactly`, `StuckWriter`, `RoomWithoutCopy`). Without a failure this cannot happen (`NoDeadlock`).
- CLOSE can be queued twice, by a close of the user and one of a failing worker (`TwoCloses`).
- `upSampleSimple` with one array for input and output repeats the first frame all along, because its copies run ahead
  of the reading position.
- `FileWriter.close` marks the writer closed before it calls `flush`, so that `flush` does nothing; the pending bytes are
  saved by closing the stream.
- `copyAssetFile` deletes the destination after any exception, also one raised while it was deciding whether to copy.
- `rewinddir` does not clear the flag of a failed seek: the stream stays empty until the next successful seek.
- At an r-th of the input rate the native routine keeps the last of every r frames, `downSample` the first.
- A message whose exit check came before destruction began is still delivered after that (`DeliveryAfterDestroy`); no
  other one is.

## Model

| member | source | states |
|---|---|---|
| FileWriters.WriteKeepsBytes | toolbox/src/main/java/com/threshold/toolbox/FileWriter.java:60-68 | a write that does not throw leaves file plus buffer equal to what was there plus the data; it throws exactly when the writer has failed or is closed, and then keeps a failed or closed writer as it is |
| FileWriters.FlushKeepsBytes | toolbox/src/main/java/com/threshold/toolbox/FileWriter.java:75-85 | a flush that does not throw loses no byte and empties the buffer; it throws exactly when the stream of a working, open writer fails |
| FileWriters.CloseSavesBytes | toolbox/src/main/java/com/threshold/toolbox/FileWriter.java:107-118 | closing puts the buffer into the file exactly as far as the stream still works; a closed or failed writer is otherwise left alone |
| FileWriters.FileWriter.Write | toolbox/src/main/java/com/threshold/toolbox/FileWriter.java:60-68 | the method moves the object to the state the protocol uses, and keeps stream, error flag and closed flag consistent |
| FileWriters.FileWriter.HandleException | toolbox/src/main/java/com/threshold/toolbox/FileWriter.java:87-104 | after a stream failure the error flag is set and the stream is gone |
| FileWriters.FileWriter.Close | toolbox/src/main/java/com/threshold/toolbox/FileWriter.java:107-118 | close is idempotent, and saves the buffer by closing the stream although its own flush does nothing |
| AsyncFileWriterProtocol.AlwaysInv | toolbox/src/main/java/com/threshold/toolbox/AsyncFileWriter.java:58-236 | every run, for all calls, schedules and failures, stays within the protocol invariant |
| AsyncFileWriterProtocol.ProducerStepKeeps | toolbox/src/main/java/com/threshold/toolbox/AsyncFileWriter.java:58-127 | every producer step keeps the whole invariant |
| AsyncFileWriterProtocol.WorkerStepKeeps | toolbox/src/main/java/com/threshold/toolbox/AsyncFileWriter.java:154-236 | every worker step keeps the whole invariant |
| AsyncFileWriterProtocol.RunsAreSafe | toolbox/src/main/java/com/threshold/toolbox/AsyncFileWriter.java:78-98 | in every run: no ring overflow, at most two WRITEs pending, the write-mismatch branch only on a released ring, and no stranded bytes |
| AsyncFileWriterProtocol.BytesAreConserved | toolbox/src/main/java/com/threshold/toolbox/AsyncFileWriter.java:195-209 | without I/O failure, file, buffer, chunk in hand and ring are the bytes taken so far in order, and what the current call still has to copy is exactly what is missing; before close, bytes in the ring are owed by one of three parties |
| AsyncFileWriterProgress.CloseAlwaysComes | toolbox/src/main/java/com/threshold/toolbox/AsyncFileWriter.java:160-169 | in every run, whatever fails: once mWorkerClosed is set and until the ring is released, CLOSE is being sent, queued or handled |
| AsyncFileWriterProgress.WaitingProducerIsServed | toolbox/src/main/java/com/threshold/toolbox/AsyncFileWriter.java:78-98 | whatever the I/O calls do, a writer waiting on a non-empty open ring sees it shrink or released within a computed number of worker steps; released only after a failure |
| AsyncFileWriterProgress.NoDeadlock | toolbox/src/main/java/com/threshold/toolbox/AsyncFileWriter.java:78-98 | from any run that leaves the writer before a full open ring, and however the threads take turns from there: a computed number of worker steps makes room, or releases the ring after a failure |
| AsyncFileWriterProgress.ReleaseOrphans | toolbox/src/main/java/com/threshold/toolbox/AsyncFileWriter.java:78-98 | in any run, a write call on the released ring is in the state that the next three rows start from |
| AsyncFileWriterProgress.StuckExactly | toolbox/src/main/java/com/threshold/toolbox/AsyncFileWriter.java:78-98 | after the release, and through any actions of both threads, a write is still running with the same bytes left if and only if no copy into the ring has taken any |
| AsyncFileWriterProgress.WriteEnds | toolbox/src/main/java/com/threshold/toolbox/AsyncFileWriter.java:78-98 | if every look reports room and every copy takes a byte, a bounded number of producer steps ends the write, however the threads take turns |
| AsyncFileWriterProgress.StuckWriter | toolbox/src/main/java/com/threshold/toolbox/AsyncFileWriter.java:78-127 | a reachable state of that kind: a run in which a file write fails while a write still has a byte to copy, which then never returns if the ring has no room |
| AsyncFileWriterProgress.RoomWithoutCopy | toolbox/src/main/java/com/threshold/toolbox/AsyncFileWriter.java:78-98 | room reported by the released ring is not enough: a copy that takes nothing leads back to exactly the same state |
| AsyncFileWriterProgress.TwoCloses | toolbox/src/main/java/com/threshold/toolbox/AsyncFileWriter.java:113-127 | a run in which the user's close and a failing worker pass each other's checks and CLOSE is queued twice |
| AsyncFileWriterProgress.CloseReleases | toolbox/src/main/java/com/threshold/toolbox/AsyncFileWriter.java:211-236 | after any run in which close has returned, whatever fails, a bounded number of worker steps releases the ring; then the file is complete unless a call has failed |
| AsyncFileWriterProgress.DrainRound | toolbox/src/main/java/com/threshold/toolbox/AsyncFileWriter.java:211-217 | a round of the drain loop on the released ring ends the loop exactly under a condition on the two lengths and the read; otherwise nothing has changed |
| AsyncFileWriterProgress.LooperEnds | toolbox/src/main/java/com/threshold/toolbox/AsyncFileWriter.java:211-236 | the looper ends within a bounded number of steps after close if every such round ends, or if no call fails; then, without failure, every written byte is in the file |
| AsyncFileWriterProgress.RunsEndComplete | toolbox/src/main/java/com/threshold/toolbox/AsyncFileWriter.java:113-119 | the same from any run in which the user's close has returned |
| AsyncFileWriterCalls.CallsStart | toolbox/src/main/java/com/threshold/toolbox/AsyncFileWriter.java:58-127 | an open writer lets each call in with all its bytes; a closed one refuses write and flush and changes nothing |
| AsyncFileWriterCalls.FlushCall | toolbox/src/main/java/com/threshold/toolbox/AsyncFileWriter.java:107-110 | in every run, a flush that passed its check on a looper that is not quitting leaves FLUSH last in the queue; whatever follows, a computed number of worker steps puts all that file and buffer held into the file, unless an I/O call has failed |
| AsyncFileWriterCalls.FlushIsServed | toolbox/src/main/java/com/threshold/toolbox/AsyncFileWriter.java:160-193 | the same from any sound state with FLUSH or CLOSE queued, under every interleaving |
| AsyncFileWriterCalls.WriteReturns | toolbox/src/main/java/com/threshold/toolbox/AsyncFileWriter.java:78-98 | a write that finds room at every look, and after a release of the ring also at every copy, returns within a computed number of its own steps |
| AsyncFileWriterCalls.CloseReturns | toolbox/src/main/java/com/threshold/toolbox/AsyncFileWriter.java:113-119 | a close call ends within five of its own steps, and the writer is closed then |
| FileWriterWorkers.FileWriterWorker.ScheduleWrite | toolbox/src/main/java/com/threshold/toolbox/AsyncFileWriter.java:154-158 | unless the worker is closed, exactly one WRITE is pending afterwards, behind everything else; no other message is lost, added or moved |
| FileWriterWorkers.FileWriterWorker.CloseOnError | toolbox/src/main/java/com/threshold/toolbox/AsyncFileWriter.java:113-127 | without interference, over any number of errors and closes at most one CLOSE is ever added, and the first error of an open worker adds it; other messages keep their order |
| FileWriterWorkers.FileWriterWorker.HandleWrite | toolbox/src/main/java/com/threshold/toolbox/AsyncFileWriter.java:195-209 | one chunk leaves the ring; without an exception no byte is lost or reordered, and a non-empty ring has a WRITE queued |
| FileWriterWorkers.FileWriterWorker.HandleClose | toolbox/src/main/java/com/threshold/toolbox/AsyncFileWriter.java:211-236 | the drain loop ends for every pattern of failures; ring, file and looper are closed, and without failure the file holds everything |
| MessageDispatchers.BothIndexes | toolbox/src/main/java/com/threshold/toolbox/MessageDispatcher.java:54-57 | an entry of a live listener is in the class index exactly when its tag is registered with that class, and as often |
| MessageDispatchers.DyingKeeps | toolbox/src/main/java/com/threshold/toolbox/MessageDispatcher.java:39-51 | listeners may die at any time without breaking consistency |
| MessageDispatchers.RegisterKeeps | toolbox/src/main/java/com/threshold/toolbox/MessageDispatcher.java:113-137 | adding a fresh tag with any, also repeated, classes keeps both indexes consistent |
| MessageDispatchers.NonNullKeeps | toolbox/src/main/java/com/threshold/toolbox/MessageDispatcher.java:117-129 | of the classes given, exactly the nulls are dropped: each class keeps its number, and a list without nulls its order |
| MessageDispatchers.UnregisterKeeps | toolbox/src/main/java/com/threshold/toolbox/MessageDispatcher.java:143-168 | removing a tag keeps both indexes consistent and leaves no empty list |
| MessageDispatchers.UnregisterTouchesOneTag | toolbox/src/main/java/com/threshold/toolbox/MessageDispatcher.java:143-168 | every other tag keeps its entries, their order and its classes |
| MessageDispatchers.UnregisterUndoesRegister | toolbox/src/main/java/com/threshold/toolbox/MessageDispatcher.java:104-169 | register then unregister restores both maps exactly to the swept registry |
| MessageDispatchers.DropDeadKeeps | toolbox/src/main/java/com/threshold/toolbox/MessageDispatcher.java:177-198 | replacing one list by any part of it that keeps the live entries keeps consistency |
| MessageDispatchers.DropTagKeeps | toolbox/src/main/java/com/threshold/toolbox/MessageDispatcher.java:202-224 | forgetting a tag none of whose classes holds a live entry of it keeps consistency |
| MessageDispatchers.TagCounts | toolbox/src/main/java/com/threshold/toolbox/MessageDispatcher.java:54-57 | under each class a tag with a live listener has as many entries as it was registered with, plus its dead ones |
| MessageDispatchers.PlainCountExactly | toolbox/src/main/java/com/threshold/toolbox/MessageDispatcher.java:54-57 | so the plain count of its entries is right for every class if and only if it has no dead entry |
| MessageDispatchers.SweptAcrossKeeps | toolbox/src/main/java/com/threshold/toolbox/MessageDispatcher.java:171-226 | a sweep between whose halves listeners die keeps consistency |
| MessageDispatchers.SweepMakesPlainCountRight | toolbox/src/main/java/com/threshold/toolbox/MessageDispatcher.java:171-226 | after a sweep without a death the plain count is right for every tag and class |
| MessageDispatchers.StaleEntry | toolbox/src/main/java/com/threshold/toolbox/MessageDispatcher.java:104-226 | three consistent registries in a row, the last with a dead entry under a re-registered tag: two entries for one registration |
| MessageDispatchers.MessageDispatcher.RemoveInvalidatedListeners | toolbox/src/main/java/com/threshold/toolbox/MessageDispatcher.java:171-226 | with listeners dying at any point of the sweep: consistency, and each list is left as a part of its entries live at the start, in their order, that holds all those live at the end; without deaths exactly the swept registry |
| MessageDispatchers.MessageDispatcher.KeepValid | toolbox/src/main/java/com/threshold/toolbox/MessageDispatcher.java:181-192 | what one list keeps while listeners die lies, as a subsequence, between the live entries at the end and those at the start |
| MessageDispatchers.MessageDispatcher.HasValidListener | toolbox/src/main/java/com/threshold/toolbox/MessageDispatcher.java:207-219 | a positive answer means a listener live at the start, a negative one that none is live at the end |
| MessageDispatchers.MessageDispatcher.Register | toolbox/src/main/java/com/threshold/toolbox/MessageDispatcher.java:104-138 | when it succeeds and when it refuses, and the exact registry after each; without a death it starts from exactly the swept registry |
| MessageDispatchers.MessageDispatcher.Unregister | toolbox/src/main/java/com/threshold/toolbox/MessageDispatcher.java:140-169 | when it succeeds, and the exact registry after it |
| MessageDispatchers.MessageDispatcher.Clear | toolbox/src/main/java/com/threshold/toolbox/MessageDispatcher.java:72-79 | both maps are emptied, unless the dispatcher has quit |
| MessageDispatchers.MessageDispatcher.Quit | toolbox/src/main/java/com/threshold/toolbox/MessageDispatcher.java:81-89 | the first quit empties both maps, later ones change nothing |
| MessageDispatchers.MessageDispatcher.HandleMessage | toolbox/src/main/java/com/threshold/toolbox/MessageDispatcher.java:246-307 | own class first in registration order, then every other assignable class once; each entry is notified as often as it is due if its listener survives, never more often, and only if it was live at the start, whether or not listeners throw |
| DirectoryStream.DirentHash | toolbox/src/main/cpp/lcu/sys/dirent_windows.h:681-693 | the 32-bit shift-and-add loop is djb2 modulo 2^32 cut to 31 bits, never negative |
| DirectoryStream.SeekTellExactly | toolbox/src/main/cpp/lcu/sys/dirent_windows.h:871-960 | seekdir(telldir()) restores the remaining entries if and only if no earlier entry has the reported hash |
| DirectoryStream.DistinctHashesRestore | toolbox/src/main/cpp/lcu/sys/dirent_windows.h:871-960 | with distinct hashes, none of them the end marker, every position can be restored |
| DirectoryStream.CollidingNames | toolbox/src/main/cpp/lcu/sys/dirent_windows.h:682-693 | two names that collide, and a listing where seeking to a told position therefore gives an earlier entry |
| DirectoryStream.OneCharacterShows | toolbox/src/main/cpp/lcu/sys/dirent_windows.h:682-693 | names that differ in exactly one place never have the same hash |
| DirectoryStream.SimilarNamesRestore | toolbox/src/main/cpp/lcu/sys/dirent_windows.h:871-960 | so in a listing of such names seeking to the position told at any entry restores what remained there |
| DirectoryStream.Dir.DirentNext | toolbox/src/main/cpp/lcu/sys/dirent_windows.h:652-674 | the look-ahead entry, or the next of the listing, is delivered once; nothing after a failed seek |
| DirectoryStream.Dir.Readdir | toolbox/src/main/cpp/lcu/sys/dirent_windows.h:493-557 | delivers the next entry with the position of the one after it, and NULL for ever at the end |
| DirectoryStream.Dir.Telldir | toolbox/src/main/cpp/lcu/sys/dirent_windows.h:871-891 | reports the position and leaves the remaining entries alone |
| DirectoryStream.Dir.Seekdir | toolbox/src/main/cpp/lcu/sys/dirent_windows.h:906-960 | from any state, terminates at the first entry with the hash, or at an empty stream when there is none |
| DirectoryStream.Dir.Rewinddir | toolbox/src/main/cpp/lcu/sys/dirent_windows.h:597-608 | rewinds if and only if no failed seek is pending |
| DirectoryStream.Dir.ReadAll | toolbox/src/main/cpp/lcu/sys/dirent_windows.h:973-1067 | reading to the end yields every remaining entry once, in order |
| DirectoryStream.Dir.SeekBack | toolbox/src/main/cpp/lcu/sys/dirent_windows.h:871-960 | tell followed by seek on the stream itself, both directions of the condition |
| VersionCompare.Strverscmp | toolbox/src/main/cpp/lcu/sys/dirent_windows.h:1084-1144 | zero exactly on equal strings, negative exactly when the first comes before the second in the reference order, positive exactly the other way round |
| VersionCompare.Trichotomy | toolbox/src/main/cpp/lcu/sys/dirent_windows.h:1084-1144 | of two different strings exactly one comes first; none comes before itself |
| VersionCompare.Transitive | toolbox/src/main/cpp/lcu/sys/dirent_windows.h:1084-1144 | the order is transitive across leading-zero, digit-count and byte comparisons |
| VersionCompare.SmallerRankFirst | toolbox/src/main/cpp/lcu/sys/dirent_windows.h:1099-1143 | a smaller rank at any shared prefix already decides the order |
| VersionCompare.NumericOrder | toolbox/src/main/cpp/lcu/sys/dirent_windows.h:1122-1140 | numbers without leading zeros after the same text are ordered by value, whatever follows |
| VersionCompare.MoreDigitsFirst | toolbox/src/main/cpp/lcu/sys/dirent_windows.h:1106-1119 | behind the same leading zeros, going on with digits comes before not going on: a01. before a0. |
| VersionCompare.FirstDigitAfterZeros | toolbox/src/main/cpp/lcu/sys/dirent_windows.h:1106-1119 | two numbers behind the same leading zeros are ordered by their first differing digit, whatever their lengths |
| VersionCompare.ZeroFirst | toolbox/src/main/cpp/lcu/sys/dirent_windows.h:1104-1119 | outside numbers a zero comes before everything else, even before the end of the string |
| VersionCompare.ByteOrder | toolbox/src/main/cpp/lcu/sys/dirent_windows.h:1142-1143 | outside numbers other bytes are in unsigned byte order, the end of the string first |
| Crc.UpdateConcat | toolbox/src/main/java/com/threshold/toolbox/AssetsUtil.java:585-594 | feeding chunks gives the CRC of the whole |
| Crc.OneByteShows | toolbox/src/main/java/com/threshold/toolbox/AssetsUtil.java:585-594 | contents that differ in exactly one byte have different CRCs |
| Crc.UpdateLinear | toolbox/src/main/java/com/threshold/toolbox/AssetsUtil.java:585-594 | the checksum is linear: the exclusive or of registers and contents gives the exclusive or of the results |
| Crc.CheckValue | toolbox/src/main/java/com/threshold/toolbox/AssetsUtil.java:586 | the text 123456789 has the published CRC-32 check value, which fixes polynomial, bit order and both complements |
| AssetCopying.SyncMakesCurrent | toolbox/src/main/java/com/threshold/toolbox/AssetsUtil.java:506-527 | whatever package the preferences came from, after the sync every cached CRC belongs to the installed one |
| AssetCopying.CacheRunKeeps | toolbox/src/main/java/com/threshold/toolbox/AssetsUtil.java:489-554 | every run of cache operations, process deaths that lose unwritten preferences and package installs keeps the cache and everything on disk sound |
| AssetCopying.CachedCrcsAreCurrent | toolbox/src/main/java/com/threshold/toolbox/AssetsUtil.java:489-554 | in every run from the first start, once the process has synchronised, each cached CRC is the CRC of that asset in the package now installed |
| AssetCopying.AssetsUtil.Die | toolbox/src/main/java/com/threshold/toolbox/AssetsUtil.java:54-55 | a process death at any time, losing unwritten preferences, is a step of that run and keeps the cache sound |
| AssetCopying.AssetsUtil.InstallApk | toolbox/src/main/java/com/threshold/toolbox/AssetsUtil.java:54-55 | a package update is a step of that run and keeps the cache sound |
| AssetCopying.AssetsUtil.EnsureApkInfoSynced | toolbox/src/main/java/com/threshold/toolbox/AssetsUtil.java:489-529 | the key-by-key comparison detects exactly a different package, once per process, and leaves only current CRCs |
| AssetCopying.AssetsUtil.GetOrComputeAssetCrc | toolbox/src/main/java/com/threshold/toolbox/AssetsUtil.java:538-554 | the answer, cached or not, is the CRC of the installed asset |
| AssetCopying.AssetsUtil.CalculateCrc | toolbox/src/main/java/com/threshold/toolbox/AssetsUtil.java:585-594 | reading in chunks of any size gives the CRC of the content, unless a read fails |
| AssetCopying.AssetsUtil.CopyToTemp | toolbox/src/main/java/com/threshold/toolbox/AssetsUtil.java:399-429 | on success the temp file is the whole asset and the CRC is its CRC; the destination is not touched |
| AssetCopying.AssetsUtil.MoveIntoPlace | toolbox/src/main/java/com/threshold/toolbox/AssetsUtil.java:431-442 | rename with fallback: at every moment the destination is old, absent or the asset |
| AssetCopying.AssetsUtil.CopyAssetStream | toolbox/src/main/java/com/threshold/toolbox/AssetsUtil.java:388-449 | success means destination equals asset; an exception means it is the old file or absent |
| AssetCopying.AssetsUtil.SkipIfNotModified | toolbox/src/main/java/com/threshold/toolbox/AssetsUtil.java:244-296 | when the balanced mode skips, as an if and only if over size, timestamps and CRC, and what skipping promises |
| AssetCopying.OneByteIsReplaced | toolbox/src/main/java/com/threshold/toolbox/AssetsUtil.java:298-324 | in content mode a destination that differs from the asset in one byte is never kept, and keeping the promise means replacing it |
| AssetCopying.KeepsPromise | toolbox/src/main/java/com/threshold/toolbox/AssetsUtil.java:215-327 | in every mode, a destination that is kept is one the mode allows to keep |
| AssetCopying.AssetsUtil.ShouldSkipCopy | toolbox/src/main/java/com/threshold/toolbox/AssetsUtil.java:215-327 | for each of the five modes, whether the copy is skipped, as an if and only if over the destination, asset, sizes, timestamps and package |
| AssetCopying.AssetsUtil.CopyAssetFile | toolbox/src/main/java/com/threshold/toolbox/AssetsUtil.java:83-127 | never partial at any moment, no other file touched, and true means the promise of the mode, for content mode equal CRCs; for an existing asset on a healthy device, always true, with the file kept or replaced exactly as the mode says |
| Frames.DownUndoesUp | toolbox/src/main/java/com/threshold/toolbox/Resample.java:85-167 | repeating every frame r times and keeping every r-th is the identity |
| Frames.DownUndoesBetween | toolbox/src/main/java/com/threshold/toolbox/Resample.java:85-95 | after interpolation that starts on the sample, all frames but the last come back |
| Frames.DownCompose | toolbox/src/main/java/com/threshold/toolbox/Resample.java:85-95 | downsampling by r1 then r2 is downsampling by their product, frame count included |
| Resampling.DownSample | toolbox/src/main/java/com/threshold/toolbox/Resample.java:45-96 | argument errors exactly; an access past the input array exactly when the last frame begun ends behind it and the output has room for it; otherwise every r-th frame that fits, even when both buffers share an array |
| Resampling.DownArgsExactly | toolbox/src/main/java/com/threshold/toolbox/Resample.java:56-72 | exactly the whole rate ratios above one are accepted, with at least one frame of input and one channel |
| Resampling.WholeFramesAreSafe | toolbox/src/main/java/com/threshold/toolbox/Resample.java:85-93 | for whole frames nothing reaches past the array and exactly the used bytes are seen |
| Resampling.UpSampleSimple | toolbox/src/main/java/com/threshold/toolbox/Resample.java:108-168 | argument errors exactly; otherwise every whole frame r times, as many as fit; when both buffers share an array, the first frame all along |
| Resampling.UpArgsExactly | toolbox/src/main/java/com/threshold/toolbox/Resample.java:119-135 | the same for the way up |
| Resampling.DownUndoesUpBytes | toolbox/src/main/java/com/threshold/toolbox/Resample.java:45-168 | with room, downSample after upSampleSimple gives the same bytes back |
| Samples.WriteUndoesRead | toolbox/src/main/java/com/threshold/toolbox/Resample.java:456-486 | writing a little-endian sample that was read restores its bytes, signed or not |
| Samples.ReadUndoesWrite | toolbox/src/main/java/com/threshold/toolbox/Resample.java:456-486 | reading a little-endian sample that was written restores its value |
| LinearResampling.FormatExactly | toolbox/src/main/java/com/threshold/toolbox/Resample.java:11-27 | the bytes of a sample and its values correspond one to one, which fixes size and sign of each of the four formats |
| LinearResampling.UpSampleLinear | toolbox/src/main/java/com/threshold/toolbox/Resample.java:180-436 | argument errors exactly; for every capacity each sample that fits is in its place and the used bytes end behind the last of them, and with room the output is exactly the interpolated frames, for all four formats |
| LinearResampling.WriteGroup | toolbox/src/main/java/com/threshold/toolbox/Resample.java:310-329 | the inner loop puts its samples in place and disturbs none written before |
| LinearResampling.InterpolateStartsExact | toolbox/src/main/java/com/threshold/toolbox/Resample.java:261-262 | the interpolation formula, in exact arithmetic, gives the sample itself at j = 0, at any ratio |
| LinearResampling.InterpolateBetween | toolbox/src/main/java/com/threshold/toolbox/Resample.java:261-262 | it never leaves the range of its two samples, so no cast or clamp changes it |
| LinearResampling.InterpolateIsNearest | toolbox/src/main/java/com/threshold/toolbox/Resample.java:261-262 | the formula gives the integer nearest to the weighted mean of its two samples, halves upwards |
| LinearResampling.DownUndoesLinear | toolbox/src/main/java/com/threshold/toolbox/Resample.java:180-387 | downSample after upSampleLinear returns all frames but the last, for every interpolation that starts on the sample |
| LinearResampling.DownUndoesLinearBytes | toolbox/src/main/java/com/threshold/toolbox/Resample.java:45-387 | the same on bytes through both contracts: the input without its last frame comes back |
| ByteUtils.ResampleForDownRate | toolbox/src/main/java/com/threshold/toolbox/ByteUtil.java:305-319 | for positive rates and at least 8 bits, the same frames as downSample, and an exception if and only if there is input and the ratio is zero, the last frame begun ends behind the array, or the output is too short |
| ByteUtils.DownConvertersAgree | toolbox/src/main/java/com/threshold/toolbox/ByteUtil.java:305-319 | with room for all frames both Java downsamplers write the same bytes |
| NativeResampling.SourceIs | app/src/main/cpp/native-resample.cpp:118-130 | output frame q is written while exactly the input frame ceil((q+1)*inRate/outRate)-1 is current |
| NativeResampling.ChannelInRange | app/src/main/cpp/native-resample.cpp:123-129 | the channel read is inside the input frame |
| NativeResampling.Resample | app/src/main/cpp/native-resample.cpp:112-140 | no int product overflows within the stated range; the byte count is floor(F*outRate/inRate) frames, and each sample read from the bytes is the value of its source frame and channel, times 65536 at 32 bits, a cut-off last input frame included; other widths write nothing |
| NativeResampling.OutputSamples | app/src/main/cpp/native-resample.cpp:118-130 | each output sample, read as a signed little-endian number, is the 16-bit sample of its source frame and channel, times 65536 when the output has 32 bits |
| NativeResampling.ExtentOfWholeFrames | app/src/main/cpp/native-resample.cpp:118 | for whole input frames exactly the input is visited |
| NativeResampling.NativeAgreesWithUpSimple | app/src/main/cpp/native-resample.cpp:118-130 | at k times the input rate, 16 bit and equal channels, it writes what upSampleSimple writes |
| NativeResampling.NativeBytesAgree | app/src/main/cpp/native-resample.cpp:118-130 | with room for everything the two outputs are the same bytes, with INT16 on the Java side |
| NativeResampling.NativeKeepsLast | app/src/main/cpp/native-resample.cpp:118-130 | at an r-th of the input rate it keeps the last frame of each group where downSample keeps the first |
| MsgQueueBridges.Context.PushMsg | toolbox/src/main/cpp/jni_msg_queue_handler.c:174-254 | at most four attempts, each one push on the native queue, success exactly when the caller's message has been enqueued unchanged, error codes for the other cases |
| MsgQueueBridges.Context.PushWithRetry | toolbox/src/main/cpp/jni_msg_queue_handler.c:231-247 | every attempt is one push; the retry loop stops on success or a hard error, and reports a full queue only after four attempts |
| MsgQueueBridges.Context.FillObj | toolbox/src/main/cpp/jni_msg_queue_handler.c:190-216 | after any regrowth the buffer holds the payload; a negative length is refused |
| MsgQueueBridges.Context.HandleQueueMsg | toolbox/src/main/cpp/jni_msg_queue_handler.c:325-360 | delivers the message unchanged through the reused array; the flag ends up set exactly if destruction began or the callback refused, and the message falls behind the start of destruction exactly if that came between check and delivery |
| MsgQueueBridges.Context.HandleNext | toolbox/src/main/cpp/jni_msg_queue_handler.c:325-360 | popping keeps delivered a prefix of accepted; one delivery follows the start of destruction exactly if it starts while that message is handled, none otherwise |
| MsgQueueBridges.DeliveryAfterDestroy | toolbox/src/main/cpp/jni_msg_queue_handler.c:325-393 | a context in which that has happened |
| MsgQueueBridges.Context.DeliveredInOrder | toolbox/src/main/cpp/jni_msg_queue_handler.c:174-360 | what Java has seen is a prefix of what was accepted, and everything but the queue while nothing has failed |
| HexUtil.Encode | toolbox/src/main/java/com/threshold/toolbox/HexUtil.java:16-35 | argument errors exactly; the builder loop, the deletion and the trim give the printed form |
| HexUtil.Decode | toolbox/src/main/java/com/threshold/toolbox/HexUtil.java:40-51 | the digit pairs from the left as bytes, or a number format error |
| HexUtil.DecodeDelimited | toolbox/src/main/java/com/threshold/toolbox/HexUtil.java:53-62 | argument errors exactly; otherwise the parse of the text without delimiters |
| HexUtil.RoundTripExactly | toolbox/src/main/java/com/threshold/toolbox/HexUtil.java:16-62 | decoding undoes encoding on all non-empty inputs if and only if the delimiter is empty, has a character outside 0-9a-f, or has a character that differs from the one two before it |
| HexUtil.NonSeparatorFails | toolbox/src/main/java/com/threshold/toolbox/HexUtil.java:16-62 | an input that is decoded wrongly for every other delimiter |
| HexUtil.EarlyMatch | toolbox/src/main/java/com/threshold/toolbox/HexUtil.java:53-62 | an occurrence of the delimiter that begins on a digit forces it to be all digits with period two |
| HexUtil.PrintedEnds | toolbox/src/main/java/com/threshold/toolbox/HexUtil.java:31-34 | the final trim changes nothing |
| HexUtil.PrintUndoesParse | toolbox/src/main/java/com/threshold/toolbox/HexUtil.java:16-51 | encoding undoes decoding on lower-case digit strings of even length |
| HexUtil.DigitsRise | toolbox/src/main/java/com/threshold/toolbox/HexUtil.java:16-51 | the sixteen digits printed have rising values from 0 to 15 |
| HexUtil.CaseDoesNotMatter | toolbox/src/main/java/com/threshold/toolbox/HexUtil.java:40-51 | parsing does not distinguish upper and lower case |
| HexUtil.PrintedOrder | toolbox/src/main/java/com/threshold/toolbox/HexUtil.java:16-35 | the higher digit is printed first: of two bytes the smaller one has the earlier text |
| JavaStrings.TrimExactly | toolbox/src/main/java/com/threshold/toolbox/HexUtil.java:34 | the trim drops exactly the blanks around the text |
| TagFinders.TagFinder.FindTagByWalkingEnclosingAndSuper | toolbox/src/main/java/com/threshold/toolbox/log/TagFinder.java:134-150 | the two loops return the first tag along enclosing classes, then along superclasses |
| TagFinders.AnnotationFirst | toolbox/src/main/java/com/threshold/toolbox/log/TagFinder.java:103-128 | a non-blank annotation wins over any fields; otherwise the fields decide |
| TagFinders.FirstTextDecides | toolbox/src/main/java/com/threshold/toolbox/log/TagFinder.java:76-101 | the first field that holds a string decides, even when it is blank |
| TagFinders.EnclosingFirst | toolbox/src/main/java/com/threshold/toolbox/log/TagFinder.java:134-142 | the nearest enclosing class with a tag decides, whatever the superclasses are |
| TagFinders.SuperSecond | toolbox/src/main/java/com/threshold/toolbox/log/TagFinder.java:143-150 | only if no enclosing class has a tag, the nearest superclass with one decides |
| TagFinders.TagFinder.CacheTag | toolbox/src/main/java/com/threshold/toolbox/log/TagFinder.java:27-33 | a known key becomes the newest; a new one pushes out the eldest exactly when the limit is exceeded |
| TagFinders.SizeAfterLookups | toolbox/src/main/java/com/threshold/toolbox/log/TagFinder.java:27-48 | a cache at or above its limit, say a lowered one, keeps its size through any lookups; one below never passes it |
| TagFinders.RecentlyUsedStays | toolbox/src/main/java/com/threshold/toolbox/log/TagFinder.java:27-33 | a key stays cached as long as fewer other keys than the limit have been looked up since |
| TagFinders.TagFinder.FindTag | toolbox/src/main/java/com/threshold/toolbox/log/TagFinder.java:152-182 | always the uncached answer, whatever is cached or cleared, and the cache never grows beyond its size or the limit |

## Left out

- The ring buffer, the native message queue and the pool libraries: only their headers exist; they appear as a bounded byte sequence and a FIFO with any answer its contract allows.
- AsyncFileWriter: interrupted sleep, the constructor's failure path, error callbacks that call back into the writer, and the checks on offset and length of a write. What calls on the released ring return is arbitrary in the model.
- FileWriterWorkers.FileWriterWorker.HandleClose: stated for the first CLOSE; a second one, possible only after a failure, is treated in the state machine (`DrainRound`, `LooperEnds`).
- MessageDispatcher: the message queue and looper of the dispatcher, and the order in which a hash map is traversed (any order is allowed).
- MessageDispatchers.MessageDispatcher.HandleMessage: does not model a registry change between its two locked sections.
- Directory stream: the multi-byte variants, file types, opening by path name, filtering and sorting in scandir. The listing is fixed while the stream is open and does not fail to reopen; `unsigned long` has 32 bits as on Windows.
- VersionCompare.Strverscmp: `isdigit` is taken for the ASCII digits; bytes above 127 are not digits.
- AssetsUtil: folder copies, reading helpers, null contexts, unreadable package information (it is assumed readable and to identify the package), and the directory part of paths. The temp file's content before the flush is arbitrary.
- Resampling.DownSample: null buffers are not modelled, and index arithmetic is on unbounded integers, so products near 2^31 are not covered; the same holds for the other Java converters.
- ByteUtils.ResampleForDownRate: positive rates and channel counts and a depth of at least 8 bits are required. The code checks nothing: a smaller depth makes its loop endless, a zero rate is a division by zero.
- LinearResampling.UpSampleLinear: input and output array are different objects, because interpolating in place reads samples already overwritten. Interpolated values are a parameter, because they depend on floating-point rounding; a float sample is represented by its bits.
- NativeResampling.Resample: a little-endian machine, positive rates and channel counts, separate buffers, large enough and with a cut-off last frame still inside the input buffer, and products within int are required, because C defines nothing otherwise; the JNI caller is left out.
- MsgQueueBridges.Context.PushMsg: allocation failures, payloads of 2^30 bytes and more, and a destroy that overlaps the call itself; attaching to the virtual machine is one flag.
- HexUtil.Decode: digits outside ASCII, which the Java library also accepts.
- TagFinder: reflection failures beyond an unreadable field or annotation, and concurrent callers.
- Bit conversion, WAV headers, dates, preferences, permissions, toasts, loggers, sockets and thread headers: small helpers or platform calls that would only add easy members.
