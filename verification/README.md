# XrdBlackhole in Dafny

XrdBlackhole is a storage plugin that keeps no data: a namespace of file records in memory, handles
that count what is written and make up what is read, and server-wide statistics. This project
models that core and proves what clients may rely on under any interleaving of any number of
handles with renames, unlinks and seeding.

## How it is built

- **Values.** `Namespace` is the map of paths and every file record ever made, as one value, with
  one function per method of the namespace class. `Session` is one handle as a value and its calls
  as atomic steps. Each namespace method holds the mutex throughout, so it is one step; `Open` on a
  handle is three steps (namespace open, record look-up, copying of the cached fields) and `Close` is
  two (storing the size and reporting, then clearing the write flag by path). `World` puts the
  namespace, the statistics and a sequence of handles together and runs any list of events. A call
  on a handle that is still inside another call does not happen, because the server serialises
  Open, Close and the rest on one handle.
- **Classes.** `BlackholeFS`, `OssFile`, `StatsManager`, `OssDir` and the seed directive of
  `SeedConfig` keep the form of the C++ classes: fields updated in place, shared mutable records,
  buffers as arrays, the loops of the original. Every method is proved to compute the function of
  the value model that stands for it, and `Session.OpenIs` and `Session.CloseIs` show that the
  uninterrupted calls are the steps of the transition system in a row.
- **Theorems.** `Generator`, `Fingerprint`, `ReadEngine` (contents of reads), `Answers` (what each
  call returns and changes), `Invariants`, `RoundTrip`, `WriteFlag`,
  `Population`, `Ledger` (runs of the whole server), `Paths`, `OssDir` (listings), `Decimal`, `SeedConfig` (seeding),
  `Stats` and `Throttle`.

Machine integers are mathematical integers with every wrap and narrowing written out
(`MachineInts`). The bits of `open` flags have their Linux values. Rates are real numbers. Durations are
parameters.

## What the proofs found

Where the code does less than its documentation says, the model follows the code.

- The documentation offers random files for client-side checksums because equal offsets give equal
  bytes (docs/configuration.md:84). That holds for the offset a read *starts* at: a byte's value depends on
  where the read that fetched it began (`ReadEngine.RandomReadDoesNotSplit`). Reads from one start
  agree (`ReadEngine.ShorterReadIsPrefix`). A read may be cut in two if the state after the first part
  is offset XOR inode at the cut, and with ten bytes or more after the cut only then
  (`ReadEngine.RandomReadSplits`). Ten bytes are also what it takes, and enough, to tell two random reads apart
  (`ReadEngine.TenBytesTellReads`, `ReadEngine.NineBytesMayAgree`).
- A close lowers the write flag of whatever record its path names then, and stores its bytes only while
  the flag of its own record is up. So a reader that closes during a session makes the writer's close store
  nothing, though it reports success (`WriteFlag.ReaderClosesFirst`); and a file renamed while it is written
  keeps its flag through the writer's close, so that the next reader of the new name empties it
  (`RoundTrip.RenameWhileWriting`, `WriteFlag.RenamedThenVisited`). `WriteFlag.SessionOutcome` says exactly when
  a close stores and when it lowers the flag, over any interleaving. Renaming after the close is safe
  (`RoundTrip.SettledMoves`).
- A file whose path ends in a slash has an empty name, which a client takes for the end of the directory:
  it hides the whole directory (`OssDir.ClientSeesListing`).
- The error total in the statistics is always zero: errors are counted only on handles without a
  record, and those never report (`Ledger.ErrorsAreNeverReported`).
- `open` narrows a 64-bit number to `int`; when that makes it negative the caller is told that the open
  failed although the file was made (`Population.OpenedThoughReportedFailed` says exactly when,
  `Population.FailureReported` that it happens).
- The root of a map that holds a path `//name` lists a file that is not there, or one twice; that is the only
  case in which a listing of absolute paths is not exact (`Paths.ListingIsExact`).
- A pattern directive with more than 2^32 files repeats paths, and with up to that many it never does
  (`SeedConfig.PathsDistinct`).

## Model

| member | source | states |
|---|---|---|
| Generator.Period | src/XrdBlackhole/XrdBlackholeOssFile.cc:122-141 | from any state the generator is back after n steps exactly when 2^64 divides n |
| Generator.StatesDistinct | src/XrdBlackhole/XrdBlackholeOssFile.cc:122-141 | no state repeats within 2^64 steps of a random read |
| Generator.FullPeriod | src/XrdBlackhole/XrdBlackholeOssFile.cc:122-141 | every 64-bit state is reached exactly once in 2^64 steps |
| Generator.ClosedForm | src/XrdBlackhole/XrdBlackholeOssFile.cc:128-141 | the n-th state is K^n times the seed plus C times the geometric sum, modulo 2^64 |
| Generator.SumValuation | src/XrdBlackhole/XrdBlackholeOssFile.cc:122-123 | for a multiplier 1 modulo 4, the geometric sum of n terms and n are divisible by the same powers of two |
| Generator.OffsetsNeverMerge | src/XrdBlackhole/XrdBlackholeOssFile.cc:124-141 | reads of one random file at two offsets differ in state at every step |
| Generator.FilesNeverMerge | src/XrdBlackhole/XrdBlackholeOssFile.cc:124-141 | reads of two random files at one offset differ in state at every step |
| MachineInts.XorBits | src/XrdBlackhole/XrdBlackholeOssFile.cc:124-124 | each bit of the seed is set exactly where offset and inode differ |
| Fingerprint.TenBytesTell | src/XrdBlackhole/XrdBlackholeOssFile.cc:122-141 | any ten successive bytes of two streams agree exactly if the streams are one |
| Fingerprint.NineBytesDoNotTell | src/XrdBlackhole/XrdBlackholeOssFile.cc:122-141 | two different streams that agree in nine bytes and differ in the tenth |
| OssFile.OssFile.FillRandom | src/XrdBlackhole/XrdBlackholeOssFile.cc:124-142 | the loop unrolled eight times and its tail write the top byte of each successive state, in order, and nothing else |
| OssFile.OssFile.ReadInner | src/XrdBlackhole/XrdBlackholeOssFile.cc:118-147 | fills exactly the clamped range with the file's content and returns its length as a signed number |
| OssFile.OssFile.Read | src/XrdBlackhole/XrdBlackholeOssFile.cc:99-112 | a read's memory, result and counters, with and without a record |
| ReadEngine.ShorterReadIsPrefix | src/XrdBlackhole/XrdBlackholeOssFile.cc:118-147 | at one offset a shorter read is a prefix of a longer one, even across handles that cached different sizes |
| ReadEngine.ContentIs | src/XrdBlackhole/XrdBlackholeOssFile.cc:118-147 | length, result and every byte of a read, from size, kind, inode, offset and length |
| ReadEngine.FirstBytes | src/XrdBlackhole/XrdBlackholeOssFile.cc:118-142 | the first two bytes of the first random file |
| ReadEngine.ZeroReadSplits | src/XrdBlackhole/XrdBlackholeOssFile.cc:143-145 | a read of a zero file may be cut in two anywhere |
| ReadEngine.RandomReadDoesNotSplit | src/XrdBlackhole/XrdBlackholeOssFile.cc:121-142 | two reads of a random file need not give the bytes of one |
| ReadEngine.RandomReadSplits | src/XrdBlackhole/XrdBlackholeOssFile.cc:121-142 | a random read cut in two gives the same bytes if the second part finds the generator in step, and with ten bytes or more after the cut only then; the first ten bytes after the cut decide in every case |
| ReadEngine.RandomStreamSplits | src/XrdBlackhole/XrdBlackholeOssFile.cc:121-142 | the whole streams on both sides of a cut are equal exactly if they are in step, and states that agree once agree always |
| ReadEngine.SomeReadsSplit | src/XrdBlackhole/XrdBlackholeOssFile.cc:121-142 | a file and a cut that are in step |
| ReadEngine.TenBytesTellReads | src/XrdBlackhole/XrdBlackholeOssFile.cc:121-142 | two random reads of ten bytes or more begin with the same ten exactly if offset XOR inode is the same, whatever the files and sizes |
| ReadEngine.OffsetsShow | src/XrdBlackhole/XrdBlackholeOssFile.cc:121-142 | reads of one random file at two offsets differ within ten bytes |
| ReadEngine.FilesShow | src/XrdBlackhole/XrdBlackholeOssFile.cc:121-142 | reads of two random files at one offset differ within ten bytes |
| ReadEngine.NineBytesMayAgree | src/XrdBlackhole/XrdBlackholeOssFile.cc:121-142 | two random files that begin with the same nine bytes |
| OssFile.OssFile.ReadV | src/XrdBlackhole/XrdBlackholeOssFile.cc:164-187 | memory after the segments one by one, overlapping or not, with the total and the counters |
| OssFile.OssFile.ReadSegments | src/XrdBlackhole/XrdBlackholeOssFile.cc:172-182 | the loop never takes its early return; it fills every positive-size segment and adds up their lengths |
| OssFile.VectoredReadIsReads | src/XrdBlackhole/XrdBlackholeOssFile.cc:164-187 | a vectored read is one read per positive-size segment, in memory, total and counters, but for the operation count of segments past the end |
| Session.TotalFits | src/XrdBlackhole/XrdBlackholeOssFile.cc:171-181 | the total of a vectored read cannot overflow |
| OssFile.OssFile.Open | src/XrdBlackhole/XrdBlackholeOssFile.cc:19-56 | an uninterrupted Open: namespace, record, cached view, zeroed counters, throttle; on failure only the path changes |
| OssFile.OssFile.Close | src/XrdBlackhole/XrdBlackholeOssFile.cc:58-87 | an uninterrupted Close stores the session's bytes if the flag is up, reports one transfer and clears the flag by path; without a record nothing changes |
| OssFile.OssFile.UpdateSize | src/XrdBlackhole/XrdBlackholeOssFile.cc:67-72 | both sizes of the record become the byte count exactly if the write flag is up |
| OssFile.OssFile.Write | src/XrdBlackhole/XrdBlackholeOssFile.cc:199-209 | the counters, the result and the delay of a synchronous write |
| OssFile.OssFile.WriteAio | src/XrdBlackhole/XrdBlackholeOssFile.cc:211-227 | the counters, the result and the delay of an asynchronous write |
| OssFile.OssFile.ReadPreposition | src/XrdBlackhole/XrdBlackholeOssFile.cc:89-97 | only checks that the handle has a record, and counts an error if not |
| OssFile.OssFile.Fstat | src/XrdBlackhole/XrdBlackholeOssFile.cc:189-197 | hands out the record's stat fields with the constant mode of a regular file, or ENOENT |
| Session.OpenIs | src/XrdBlackhole/XrdBlackholeOssFile.cc:19-56 | the three steps of Open in a row are the uninterrupted Open |
| Session.CloseIs | src/XrdBlackhole/XrdBlackholeOssFile.cc:58-87 | the two steps of Close in a row are the uninterrupted Close |
| BlackholeFS.BlackholeFS.Open | src/XrdBlackhole/BlackholeFS.cc:57-111 | the new namespace and return code for every combination of access mode, O_EXCL, O_TRUNC and existence |
| BlackholeFS.BlackholeFS.Close | src/XrdBlackhole/BlackholeFS.cc:113-119 | clears the write flag of the record the path names now, if any |
| BlackholeFS.BlackholeFS.Rename | src/XrdBlackhole/BlackholeFS.cc:35-47 | moves the record to the new path, replacing what was there; a rename to itself changes nothing |
| BlackholeFS.BlackholeFS.Unlink | src/XrdBlackhole/BlackholeFS.cc:49-55 | removes the path, or ENOENT; records stay for the handles that hold them |
| BlackholeFS.BlackholeFS.Seed | src/XrdBlackhole/BlackholeFS.cc:121-134 | makes a complete record, and binds the path to it only if the path was free |
| BlackholeFS.BlackholeFS.GetStub | src/XrdBlackhole/BlackholeFS.cc:12-17 | the path's record, shared and not copied, or null |
| BlackholeFS.BlackholeFS.Readdir | src/XrdBlackhole/BlackholeFS.cc:19-33 | appends the listing of the normalised directory to the entries |
| Invariants.ReachableNamespace | src/XrdBlackhole/BlackholeFS.cc:35-134 | in every state reached in fewer than 2^64 events paths share no record, all records ever made have distinct non-zero inodes and device 1, and both sizes agree as 64-bit values |
| World.Step | src/XrdBlackhole/BlackholeFS.cc:35-134 | every event keeps the namespace consistent and every handle's record in existence |
| Invariants.SizesSeenAlike | src/XrdBlackhole/XrdBlackholeOssFile.cc:41-43 | below 2^63 bytes the size, the stat size and the size cached by a fresh Open are one number |
| Invariants.SizeChangesOnlyInClose | src/XrdBlackhole/XrdBlackholeOssFile.cc:67-72 | only the Close of a handle attached to a record whose flag is up changes its size, and to that session's bytes |
| Invariants.FlagSetOnlyByReopening | src/XrdBlackhole/BlackholeFS.cc:78-95 | the write flag of a record goes up exactly at a non-truncating, non-exclusive write open of its path |
| Invariants.ClosedKeepsSize | src/XrdBlackhole/XrdBlackholeOssFile.cc:67-72 | a file with its flag down keeps size, stat and kind over any run that does not reopen it for writing |
| Invariants.SeededKeepsSize | src/XrdBlackhole/BlackholeFS.cc:121-134 | a seeded file has its configured size and kind until it is reopened for writing |
| Invariants.ReadsAreStable | src/XrdBlackhole/XrdBlackholeOssFile.cc:41-43 | while a handle stays open no event changes the result or content of its reads |
| Invariants.IoCommutes | src/XrdBlackhole/XrdBlackholeOssFile.cc:99-227 | an I/O call on one handle and any event not on that handle can be exchanged: same state, same results |
| Answers.FlagBits | src/XrdBlackhole/BlackholeFS.cc:70-83 | the access mode is the low two bits of the flags, O_EXCL is octal 200 and O_TRUNC octal 1000, whatever the other bits are |
| Answers.OpenRefused | src/XrdBlackhole/BlackholeFS.cc:70-81 | opening a missing path to read is ENOENT, and with O_EXCL an existing one to write is EEXIST; nothing changes but the handle's path |
| Answers.OpenFinds | src/XrdBlackhole/BlackholeFS.cc:70-93 | opening an existing file, to read or to write on, keeps all paths and every record's content, raises the flag exactly for a write, and succeeds exactly if the next number is not negative as an int |
| Answers.OpenMakes | src/XrdBlackhole/BlackholeFS.cc:83-110 | creating or truncating binds the path to a new record, empty, of zeros, open for writing, with the next number as inode |
| Answers.OpenLooksUp | src/XrdBlackhole/XrdBlackholeOssFile.cc:28 | the second step of an open takes the record the path names at that moment, or none |
| Answers.OpenCaches | src/XrdBlackhole/XrdBlackholeOssFile.cc:31-51 | an opened handle has the size, the kind and the inode of the record found, all counters zero, and knows whether it may write |
| Answers.ReadRefused | src/XrdBlackhole/XrdBlackholeOssFile.cc:89-104 | every kind of read without a record is EINVAL and counted as one error |
| Answers.ReadAnswers | src/XrdBlackhole/XrdBlackholeOssFile.cc:99-120 | a read returns as many bytes as asked for or left, and counts them and one operation if there are any |
| Answers.NothingToRead | src/XrdBlackhole/XrdBlackholeOssFile.cc:89-97 | the check alone changes nothing on a handle with a record, and neither does a vectored read of no segments on any |
| Answers.WriteAnswers | src/XrdBlackhole/XrdBlackholeOssFile.cc:199-227 | a write, synchronous or not, returns its whole length as a signed number and adds it to the counter of its kind |
| Answers.CloseRefused | src/XrdBlackhole/XrdBlackholeOssFile.cc:58-62 | closing without a record is ENOENT and reports nothing |
| Answers.CloseUpdates | src/XrdBlackhole/XrdBlackholeOssFile.cc:67-82 | a close sets both sizes to the bytes written if the flag is up, and reports one transfer with all its fields |
| Answers.CloseClears | src/XrdBlackhole/XrdBlackholeOssFile.cc:84-86 | the last step of a close lowers the flag of the record its path names then, changes nothing else of any record, and lets go of its own |
| Answers.NewFileAnswers | src/XrdBlackhole/XrdBlackholeOssFile.cc:17 | a new file object has no record, no path and nothing counted |
| Answers.UnlinkAnswers | src/XrdBlackhole/BlackholeFS.cc:49-55 | unlink is ENOENT exactly for a missing path, and takes away that path only |
| Answers.RenameAnswers | src/XrdBlackhole/BlackholeFS.cc:35-47 | rename is ENOENT exactly for a missing source, and says what every path names afterwards |
| Answers.SeedAnswers | src/XrdBlackhole/BlackholeFS.cc:121-134 | seeding makes a closed record of the size and kind given with the next number as inode; a taken path keeps its own |
| RoundTrip.SessionIsStored | src/XrdBlackhole/XrdBlackholeOssFile.cc:58-87 | after an undisturbed session on a fresh record the path holds exactly the bytes of all its writes, flag down |
| RoundTrip.SessionCounts | src/XrdBlackhole/XrdBlackholeOssFile.cc:199-227 | during an undisturbed session the handle stays on the path's record, flag up, and its two counters add up to the bytes written so far |
| RoundTrip.CloseSettles | src/XrdBlackhole/XrdBlackholeOssFile.cc:67-85 | the two steps of the close store the bytes and drop the flag, even with other events between them |
| RoundTrip.SettledIsRead | src/XrdBlackhole/XrdBlackholeOssFile.cc:28-43 | every later undisturbed read-only session sees a zero file of the stored size |
| RoundTrip.ReaderSees | src/XrdBlackhole/XrdBlackholeOssFile.cc:28-43 | an undisturbed reader of a closed file, made in whatever way, reads by the file's size, kind and inode |
| RoundTrip.SeededIsRead | src/XrdBlackhole/XrdBlackholeOssFile.cc:118-147 | a file seeded at a free path is read back, by any undisturbed reader, as the bytes of its kind: generator bytes from offset XOR its inode, or zeros, as many as the size allows |
| RoundTrip.WriteThenRead | src/XrdBlackhole/XrdBlackholeOssFile.cc:19-147 | the whole round trip: the file's two sizes are the bytes written, and later readers get as many zeros, from their offset on |
| RoundTrip.UninterruptedSession | src/XrdBlackhole/XrdBlackholeOssFile.cc:19-87 | from any state, a session that nothing interrupts is undisturbed in this sense and stores its one write |
| RoundTrip.UninterruptedReader | src/XrdBlackhole/XrdBlackholeOssFile.cc:19-56 | from any state, a read-only open that nothing interrupts is an undisturbed reader |
| RoundTrip.SettledMoves | src/XrdBlackhole/BlackholeFS.cc:35-47 | a closed file keeps what it holds when it is renamed, also over another file |
| RoundTrip.RenameWhileWriting | src/XrdBlackhole/BlackholeFS.cc:113-119 | after a rename during a session, the close that follows stores the bytes under the new name and leaves the write flag up |
| RoundTrip.EmptySessionErases | src/XrdBlackhole/XrdBlackholeOssFile.cc:67-72 | the close of a session without writes sets the size to zero exactly if the flag is up |
| WriteFlag.FlagClearedOnlyByClose | src/XrdBlackhole/BlackholeFS.cc:113-119 | a write flag that is up goes down exactly at the last step of a close whose path names the record then, whoever's close it is |
| WriteFlag.CloseLowersExactlyIf | src/XrdBlackhole/BlackholeFS.cc:113-119 | a handle's close lowers its record's flag exactly if its path still names that record |
| WriteFlag.FlagAfterRun | src/XrdBlackhole/BlackholeFS.cc:78-119 | after any run the flag is up exactly if no close has cleared the record since it was last opened for writing |
| WriteFlag.SessionCountsBytes | src/XrdBlackhole/XrdBlackholeOssFile.cc:199-227 | an open handle's two counters add up to the bytes it has written, over any run at all |
| WriteFlag.CloseStoresExactlyIf | src/XrdBlackhole/XrdBlackholeOssFile.cc:67-72 | over any interleaving a close stores its session's bytes if no close has cleared the record since it was last opened for writing, and otherwise changes no record |
| WriteFlag.LastCloseWins | src/XrdBlackhole/XrdBlackholeOssFile.cc:67-72 | a size that is overwritten ends as the byte count of the last close that overwrote it |
| WriteFlag.SessionOutcome | src/XrdBlackhole/XrdBlackholeOssFile.cc:58-87 | over any interleaving before and within a close: when its bytes are stored, that they stay unless overwritten, and exactly when the flag is down in the end |
| WriteFlag.VisitEmpties | src/XrdBlackhole/XrdBlackholeOssFile.cc:67-85 | a reader that opens and closes a file being written empties it and lowers its flag |
| WriteFlag.ReaderClosesFirst | src/XrdBlackhole/XrdBlackholeOssFile.cc:67-85 | after such a visit the writer's close reports success and stores nothing, however much was written before or after |
| WriteFlag.RenamedThenVisited | src/XrdBlackhole/BlackholeFS.cc:113-119 | a file renamed while it was written is emptied by the next reader of its new name, which lowers the flag |
| Population.RemovalBetweenOpens | src/XrdBlackhole/BlackholeFS.cc:64-111 | between two successful write opens of a path, the second exclusive, a successful unlink or rename took the file away |
| Population.OneExclusiveWinner | src/XrdBlackhole/BlackholeFS.cc:79-95 | of all exclusive opens of a path that is never removed at most one succeeds, and none if it exists already |
| Population.OnlyRemovalRemoves | src/XrdBlackhole/BlackholeFS.cc:35-55 | a path loses its file exactly at an unlink or a rename to another path |
| Population.OpenedThoughReportedFailed | src/XrdBlackhole/BlackholeFS.cc:72-110 | a write open that happened is reported as failed exactly if its number is negative as an int |
| Population.FailureReported | src/XrdBlackhole/BlackholeFS.cc:98-110 | a state the server reaches in which a write open succeeds and is reported as failed |
| Population.RenameReplaces | src/XrdBlackhole/BlackholeFS.cc:35-47 | rename replaces the destination in one step, keeps every record and every third path, and is the identity from a path to itself |
| Population.OthersKeepTheirFiles | src/XrdBlackhole/BlackholeFS.cc:35-134 | an event leaves the binding of every path it does not mention |
| Population.FilesAreCounted | src/XrdBlackhole/BlackholeFS.cc:35-134 | after any run there are as many files as before plus creations minus unlinks and replacements |
| Ledger.RunBalances | src/XrdBlackhole/XrdBlackholeOssFile.cc:58-227 | over any run moving less than 2^63 bytes, bytes moved are recorded, pending on open handles, or lost in one of two named ways |
| Ledger.BytesConserved | src/XrdBlackhole/XrdBlackholeStats.cc:37-51 | on an unused server, if handles are closed before reuse and written only while open, the bytes that results acknowledge equal the recorded total plus the open handles' counters, in each direction |
| Ledger.SessionReportsOps | src/XrdBlackhole/XrdBlackholeOssFile.cc:74-82 | what a Close would report is, for each kind, the number of operations since the Open, modulo 2^32, over any interleaving |
| Ledger.SessionReportsItself | src/XrdBlackhole/XrdBlackholeOssFile.cc:47-82 | the report names the path opened, says whether for writing, gives the time and no errors, over any interleaving |
| Ledger.TotalsAreReports | src/XrdBlackhole/XrdBlackholeStats.cc:37-51 | at any moment the totals are the fold of the transfers closed so far |
| Ledger.ErrorsAreNeverReported | src/XrdBlackhole/XrdBlackholeOssFile.cc:58-104 | over any run of an unused server the error total stays zero |
| Stats.StatsManager.RecordTransfer | src/XrdBlackhole/XrdBlackholeStats.cc:17-44 | the totals stay the fold of all transfers recorded so far |
| Stats.StatsManager.GetSnapshot | src/XrdBlackhole/XrdBlackholeStats.cc:46-51 | a snapshot is the fold of the transfers recorded so far |
| Stats.OrderIndependent | src/XrdBlackhole/XrdBlackholeStats.cc:37-44 | the totals do not depend on the order of the transfers |
| Stats.BytesAreSums | src/XrdBlackhole/XrdBlackholeStats.cc:39-40 | the byte totals are the sums of the transfers' bytes, as signed 64-bit numbers |
| Stats.CountsAreSizes | src/XrdBlackhole/XrdBlackholeStats.cc:38-43 | the transfer counts are the number of transfers, and of those that moved bytes in each direction |
| Stats.RatesAreSums | src/XrdBlackhole/XrdBlackholeStats.cc:11-43 | the error total and both rate sums are sums over the transfers, of errors and of MiB per second |
| Throttle.ThrottleBound | src/XrdBlackhole/XrdBlackholeOssFile.cc:199-204 | n writes sleep at most their bytes over the rate, and less than n microseconds short of it |
| Throttle.SleepAtSpeed | src/XrdBlackhole/XrdBlackholeOssFile.cc:44-45 | at the configured speed a write sleeps for the whole microseconds its bytes take, and not at all without one |
| Throttle.SplittingNeverSlower | src/XrdBlackhole/XrdBlackholeOssFile.cc:199-219 | cutting any or all of a sequence of writes into smaller ones writes as much and never lengthens the total sleep |
| Paths.ListingIsExact | src/XrdBlackhole/BlackholeFS.cc:19-33 | for absolute paths a listing names exactly the slash-free names whose join is in the map, once and in order, if and only if it is not the root of a map with a path of the form //name |
| Paths.ListingNames | src/XrdBlackhole/BlackholeFS.cc:26-32 | what a listing names in any map, absolute paths or not |
| Paths.DirectoryIsExact | src/XrdBlackhole/BlackholeFS.cc:19-33 | for the path a caller passes, with a slash at the end or without, the listing has exactly the directory's files; for the root, unless there is a path of the form //name |
| Paths.Select | src/XrdBlackhole/BlackholeFS.cc:26-32 | the walk over the map collects the names of the directory's files in the map's order |
| Paths.SplitThenJoin | src/XrdBlackhole/BlackholeFS.cc:28-31 | splitting an absolute path at its last slash and joining gives it back, but for paths of the form //name |
| Paths.JoinThenSplit | src/XrdBlackhole/BlackholeFS.cc:28-31 | joining a directory and a slash-free name and splitting gives them back |
| Paths.LexStrip | src/XrdBlackhole/BlackholeFS.cc:26-32 | the map's order survives stripping a common prefix |
| Paths.SortedKeys | src/XrdBlackhole/BlackholeFS.cc:26 | the map is walked over all its keys in strictly ascending order |
| Paths.DirectoryNames | src/XrdBlackhole/BlackholeFS.cc:19-33 | in any map one slash at the end of the path makes no difference, but to the root |
| OssDir.OssDir.Opendir | src/XrdBlackhole/XrdBlackholeOssDir.cc:35-42 | takes a snapshot of the directory's listing and starts at its beginning |
| OssDir.OssDir.Readdir | src/XrdBlackhole/XrdBlackholeOssDir.cc:50-64 | delivers the next name with its terminator, or the end mark, or skips a name too long and leaves the buffer alone |
| OssDir.NextIs | src/XrdBlackhole/XrdBlackholeOssDir.cc:50-64 | for names that an int can count: the end for ever, a name if it fits with its terminator, or an error and a skip |
| OssDir.DrainDeliversAll | src/XrdBlackhole/XrdBlackholeOssDir.cc:50-64 | repeated calls deliver in order exactly the names that fit, one error for each that does not, then end marks for ever |
| OssDir.ClientSeesListing | src/XrdBlackhole/XrdBlackholeOssDir.cc:35-64 | a client that drains a directory sees exactly its files, in order, unless the map has the directory's path with a slash at the end, and then it sees nothing |
| SeedConfig.CfgSeedfile | src/XrdBlackhole/XrdBlackholeOss.cc:189-272 | what the directive does to the namespace and whether it is accepted, every rejection included |
| SeedConfig.ReadOptions | src/XrdBlackhole/XrdBlackholeOss.cc:224-247 | the option loop: later options override, unknown ones are skipped, a bad one rejects |
| SeedConfig.SeedAll | src/XrdBlackhole/XrdBlackholeOss.cc:261-270 | seeds the files of the pattern up to the first path that does not fit the buffer, and succeeds if there is none |
| SeedConfig.SizeRoundTrip | src/XrdBlackhole/XrdBlackholeOss.cc:204-222 | a written number with a binary suffix is parsed as that many bytes, modulo 2^64 |
| SeedConfig.SuffixFactors | src/XrdBlackhole/XrdBlackholeOss.cc:212-222 | K, M, G and T, in either case, are the 10th, 20th, 30th and 40th power of two, and nothing else is a suffix |
| SeedConfig.OptionsRoundTrip | src/XrdBlackhole/XrdBlackholeOss.cc:229-246 | a written count and a written type are read as meant |
| SeedConfig.UnknownOptionIgnored | src/XrdBlackhole/XrdBlackholeOss.cc:244-246 | a word that is no option is skipped, wherever it stands |
| SeedConfig.PatternRoundTrip | src/XrdBlackhole/XrdBlackholeOss.cc:249-255 | a written pattern is recognised with its width and the text around it |
| SeedConfig.PlainPattern | src/XrdBlackhole/XrdBlackholeOss.cc:249-264 | a pattern with a plain %d is recognised with the text around it |
| SeedConfig.DirectiveSeeds | src/XrdBlackhole/XrdBlackholeOss.cc:189-272 | from the words of a directive for several files to the namespace: accepted exactly if every path fits; distinct paths; new records of the size and kind asked for at the free ones; all else as before |
| SeedConfig.OneFileIsSeeded | src/XrdBlackhole/XrdBlackholeOss.cc:189-272 | the directive for one file, with its options in any order: accepted, and one record of the size and kind asked for, named by the path if it was free |
| SeedConfig.DirectiveRefused | src/XrdBlackhole/XrdBlackholeOss.cc:189-255 | a missing word, a bad size, a bad option anywhere, or a count above one without '%' is refused and changes nothing |
| SeedConfig.ExpansionIs | src/XrdBlackhole/XrdBlackholeOss.cc:263-264 | a generated path is the text before, the index in decimal padded to the width, and the text after |
| SeedConfig.ExpandInjective | src/XrdBlackhole/XrdBlackholeOss.cc:263-264 | two files of a pattern have one path exactly when their indices are the same int |
| SeedConfig.PathsDistinct | src/XrdBlackhole/XrdBlackholeOss.cc:257-270 | the paths of a pattern are pairwise distinct if and only if there are at most 2^32 |
| SeedConfig.PatternIsSeeded | src/XrdBlackhole/XrdBlackholeOss.cc:257-270 | each path of the pattern that was free gets the record made for its index |
| SeedConfig.OthersAreKept | src/XrdBlackhole/BlackholeFS.cc:121-134 | paths that were taken keep their record, and no other path is created |
| Decimal.ParsePrint | src/XrdBlackhole/XrdBlackholeOss.cc:263-264 | zero-padded decimal printing, negative numbers included, can be read back |
| Decimal.PrintWidth | src/XrdBlackhole/XrdBlackholeOss.cc:263-264 | printing pads up to the width and no further |
| Decimal.StrtoullOfDigits | src/XrdBlackhole/XrdBlackholeOss.cc:204-232 | a number written in decimal is scanned as itself up to the first other character, and out of range from 2^64 on |
| Decimal.StrtoullOfSigned | src/XrdBlackhole/XrdBlackholeOss.cc:204-232 | a minus sign negates a scanned number modulo 2^64 and a plus sign does not |

## Left out

- SeedConfig.CfgSeedfile: of printf's conversions only one `%d` or `%0Wd` per path is modelled, and only where its output is shorter than 2^31 characters; other specifiers, and the failure of snprintf beyond that length, are outside its precondition.
- SeedConfig.SeedAll: a pattern that may expand to 2^31 characters or more, where snprintf fails, is outside its precondition, and so for `SeedConfig.PatternRoundTrip` and `SeedConfig.DirectiveSeeds`.
- OssDir.OssDir.Readdir: the caller's buffer must have room for what is copied; a name whose length narrows to a negative `int` is copied whole, past a buffer of the stated length.
- Ledger.BytesConserved: totals of 2^63 bytes and more are not covered, because the C++ counters overflow there.
- Stats.OrderIndependent: rates are real numbers here; the rounding of `double` sums is not modelled.
- Invariants.ReachableNamespace: after 2^64 events the number counter wraps and inodes repeat; runs that long are not covered.
- Asynchronous reads and ReadRaw are the same step as Read; the callbacks of asynchronous calls and the memory model of atomics are not modelled.
- Clocks and sleeping: durations are parameters, delays are results.
- XRootD entry points, configuration file reading, logging and tracing.
- The metrics page, extended attributes, the fixed answers to space queries, and the calls that always fail or always succeed.
- The three default files of the `defaultspath` directive are three calls of seeding; the other directives set one value each.
- strtoull's leading blanks: configuration words contain none.
