# Verification model of the dmlite HDFS plugin

The plugin lets dmlite store files in HDFS. HDFS files can only be appended to, so the plugin buffers
random-access writes in a local temp file and replays that file when the handle is closed; uploads go to
`<name>.upload` and are published by a rename. This project models that behaviour in Dafny and proves
what a client relies on. `dafny verify dfyconfig.toml` checks everything.

HDFS is a map from paths to directories and files; the local disk is files, directories and open
descriptions with the POSIX.1-2008 behaviour of `open`, `read`, `write`, `lseek`, `close`, `remove` and
`mkdir`. Both are classes whose methods choose sizes, interruptions and failures freely within their
contracts, so a method's postcondition holds for every schedule. Whether a call must succeed is stated with three
constants: `Cluster.reliable` marks a name node that fails no call and cuts no read short without a reason in the
name space, `LocalDisk.reliable` a disk that fails no call without a reason and takes every write whole, and
`Stack.reliable` a catalog database that always answers. Contracts that need one say so.

How the files build on each other:

| file | holds |
|---|---|
| `Results`, `Posix`, `Hdfs`, `Names` | results, the local disk, HDFS, the path arithmetic of the plugin |
| `Util` | `trim`, `mkdirs`, the random gateway |
| `Buffer` | `write`/`seek` on the temp file against positional writes on a byte string |
| `Writers` | the life of one write handler as a state machine, over whole runs |
| `Readers` | draining a file through `read` and `eof` |
| `IOHandler` | the class `HdfsIOHandler`, proved to move like `Writers` and `Readers` say |
| `Catalogs`, `Promotion` | the two catalogs; eager and lazy promotion of a replica |
| `Pool`, `Driver` | `HdfsPoolHandler` and `HdfsIODriver`, proved against functions on HDFS and the catalog |
| `Client` | a client of the handler class: open, any calls, close, destroy |
| `Tree`, `Protocol` | all interleaved runs of many upload sessions, with temp files that may be shared |
| `Uploads` | what is uploaded when every handler opens a fresh temp path |
| `Scenarios`, `TempPaths` | runs that exist, good and bad; when temp paths keep uploads apart |
| `NameSpace` | the directory cursor, placement of reads and writes |
| `Gateways` | the `HdfsGateway` option of both factories |

## Main results

- Buffered writes refine direct writes: whatever `write`s (full, short or failing) and `seek`s a client makes, and
  however the replay is cut up by HDFS, a `close` that returns leaves exactly the byte string those calls
  describe, a `close` that throws leaves a prefix of it, and nothing reaches HDFS earlier
  (`HdfsIOHandler` against `Writers.HandlerLifecycle`, `Buffer.ContentsAreDescribed`; end to end `Client.Upload`).
- Interleaved upload sessions, down to single `read`s and `hdfsWrite`s. In every run, final names appear only by
  their own rename, published files stay, and sessions leave each other's HDFS files alone
  (`Protocol.AppearsOnlyByRename`, `PublishedSurvives`, `SessionsDoNotInterfere`, `CancelIsExact`). In runs whose
  handlers open fresh temp paths, what is published is exactly what its client described
  (`Uploads.PublicationSafety`, `PublishedStays`, `TempFilesDoNotInterfere`), and every upload can be
  completed (`Scenarios.UploadCanComplete`).
- Eager and lazy promotion agree in every order, and the record after any faults is known
  (`Promotion.PromotionsAgree`, `Promotion.PromotionsWithFaults`).

Where the code does less than one would expect, the exact condition is proved:

- Temp files are opened without O_EXCL and O_TRUNC under a name made of a random number and the last component of
  the path. All interleaved runs publish what their clients described if and only if the temp paths of
  different uploads are distinct (`TempPaths.SafeIffPathsDistinct`), and two temp paths are the same exactly when
  the random number followed by the file name is (`Names.TempPathsCollide`). `/a/x` and `/b/x` share one whenever
  `rand()` agrees, as it does within a second, and then the wrong byte is published
  (`Scenarios.SharedTempExample`). For a single handler that nobody interferes with, the upload is right for every
  client exactly when its temp file was fresh or empty (`Buffer.FreshTempFileIsNeeded`).
- `doneWriting` does not ask how the close went. It publishes a whole file exactly when the staging file has the
  described length, which a normal close guarantees (`Uploads.UncheckedDoneWriting`); an upload whose handler is
  destroyed after one write is published as an empty file (`Scenarios.AbandonedUploadPublishesNothing`).
- `whereToWrite` creates the "parent" of a name without a slash under the name itself, after which no run
  publishes it (`Protocol.ReservingMakesDirectories`, `Protocol.SlashlessNameIsNeverAFile`).
- A handler strips a host part from the path it is given and the other operations do not, so names that differ in a
  host part only are staged in one file (`Names.HostPartsCollide`); final names are plain in all runs.
- A promotion that fails between writing the status and writing the size is never repaired by
  `replicaIsAvailable` (`Promotion.RepairCondition`, `Promotion.FinishedCondition`, `Promotion.StaleSizeStays`).
- With a catalog that keeps records, `cancelWrite` does not find the replica `whereToWrite` registered
  (`Pool.RegistryDoesNotFindUploads`).
- Reading until `eof` returns the whole file exactly when the unit is at least 65536 bytes or the file fits
  one read (`Readers.DrainingIsComplete`).
- `trim` compares signed `char`s, so it leaves what trimming ASCII blanks leaves exactly when that is empty or starts
  and ends below 0x80 (`Util.TrimIsAsciiTrim`, `Util.AccentIsTrimmedAway`).
- `mkdirs` works on a buffer of 256 characters, so a missing temp folder is made exactly when its whole name fits in
  255, 13 of them the plugin's own; otherwise no handler can be opened for writing
  (`Util.MkdirsMakesWhatFits`, `IOHandler.HdfsIOHandler.TempFolderCondition`).
- A listed entry that cannot be stat'ed stops a directory cursor for good (`NameSpace.IterationFollowsListing`).

Where the code and its comments disagree, the model follows the code: the comment at `src/HdfsIO.cpp:54` says
O_RDWR becomes O_RDONLY or O_WRONLY "accordingly", but every O_RDWR is opened for writing and the read branch
cannot be reached (`IOHandler.WritingFlags`).

## Model

| member | source | states |
|---|---|---|
| `Buffer.ByteIsLastWrite` | `src/HdfsIO.cpp:181-193` | the reference for a client's writes: a covered byte is that of the last accepted write covering it |
| `Buffer.UncoveredByteIsZero` | `src/HdfsIO.cpp:181-193` | and a byte that no write covers is zero |
| `Buffer.ExtentIsFurthestByte` | `src/HdfsIO.cpp:181-193` | the described string ends exactly with the furthest byte written |
| `Buffer.SeekCountsFrom` | `src/HdfsIO.cpp:249-256` | a seek counts from 0, the position or the end of the described string and is refused iff no 63 bits hold the sum |
| `Buffer.WriteLandsAtSeek` | `src/HdfsIO.cpp:181-256` | after a seek the bytes a write takes are laid where the seek went, and the position follows them |
| `Buffer.WriteExtendsImage` | `src/HdfsIO.cpp:184` | one POSIX write at the offset, zero-filling a gap, is one more positional write of the reference |
| `Buffer.TempFileRefinesPlacement` | `src/HdfsIO.cpp:181-193` | after any writes and seeks the temp file and its offset are those of the reference |
| `Buffer.ContentsAreDescribed` | `src/HdfsIO.cpp:181-256` | on a fresh temp file, every sequence of short, full or failed writes and of seeks from start, current and end leaves the described byte string |
| `Buffer.FreshTempFileIsNeeded` | `src/HdfsIO.cpp:82-103` | opened without truncation, and not written by any other handler, the temp file gives every client the described bytes iff nothing was left in it |
| `Buffer.LeftoverIsOverwritten` | `src/HdfsIO.cpp:100` | with leftovers the upload is the client's writes laid over them |
| `Writers.AttemptsAreBounded` | `src/HdfsIO.cpp:213-231` | every attempt of the copy loop moves a byte, uses up a stall or fails, so their number is bounded by bytes, stalls and failures |
| `Writers.NothingReachesHdfsBeforeClose` | `src/HdfsIO.cpp:181-193` | a run of writes and seeks leaves HDFS as it was, and the temp file as the calls say |
| `Writers.ClosedForGood` | `src/HdfsIO.cpp:135-160` | after a close, normal or throwing, HDFS never changes again and every further write, seek and close throws |
| `Writers.HandlerLifecycle` | `src/HdfsIO.cpp:111-160` | for every run: HDFS gains a prefix of the described bytes at the first close, all of them if it returns, none if the handler is destroyed unclosed |
| `Writers.BufferedWritesRefineDirectWrites` | `src/HdfsIO.cpp:77-246` | on a new file, a close that returns leaves exactly the described byte string for every chunking, one that throws a prefix, and no other path changes |
| `IOHandler.WritingFlags` | `src/HdfsIO.cpp:54-64` | any of O_WRONLY, O_RDWR and O_CREAT opens for writing, HDFS is never asked for O_RDWR, and all other flags are passed on |
| `IOHandler.HdfsIOHandler.Open` | `src/HdfsIO.cpp:20-107` | opening creates or appends to the HDFS file, makes the temp folder, then opens the temp file keeping its old bytes under a new descriptor; what is left behind when it throws; with reliable disk and name node it succeeds iff HDFS can open the file and, for a free temp path with nothing in the way, the folder exists or has a name short enough to be made |
| `IOHandler.HdfsIOHandler.TempFolderCondition` | `src/HdfsIO.cpp:82-92` | with no file in the way the temp folder is there afterwards iff it was there before or its name has at most 255 characters |
| `IOHandler.HdfsIOHandler.OpeningCondition` | `src/HdfsIO.cpp:82-103` | and exactly then the temp file can be created |
| `IOHandler.HdfsIOHandler.Write` | `src/HdfsIO.cpp:181-193` | every byte of the temp file afterwards: those taken lie at the offset, a gap is zero, the rest is as before; a reliable disk takes all; throws on a closed handler; HDFS, other temp files and descriptors stay |
| `IOHandler.HdfsIOHandler.Seek` | `src/HdfsIO.cpp:249-256` | moves to offset, position + offset or size + offset iff that lies in 0 to 2^63 - 1, else throws and changes nothing |
| `IOHandler.HdfsIOHandler.CopyToHdfs` | `src/HdfsIO.cpp:203-246` | for every schedule: 0 means the whole temp file was appended, -1 a prefix of it, in order; no descriptor leaks; at most size + stalls + one failing call of hdfsWrite; on a reliable disk it is 0 iff no hdfsWrite failed |
| `IOHandler.HdfsIOHandler.CopyFrom` | `src/HdfsIO.cpp:205-233` | the outer loop terminates, appends exactly what it has read and sent, and fails only when a read or a chunk does |
| `IOHandler.HdfsIOHandler.SendChunk` | `src/HdfsIO.cpp:215-230` | the inner loop sends a chunk from where the last write stopped, retries interruptions and gives up on other errors only |
| `IOHandler.HdfsIOHandler.Close` | `src/HdfsIO.cpp:135-160` | handle null, descriptor -1 and temp file gone whatever the outcome; when it returns HDFS has gained the whole temp file; on a reliable disk it returns iff no hdfsWrite failed, with a reliable name node too iff the HDFS file is still there or nothing was written; throws on a closed handler; moves as its machine says |
| `IOHandler.HdfsIOHandler.Destroy` | `src/HdfsIO.cpp:111-131` | moves as the machine says: copies nothing, lets go of the descriptor and removes the temp path, closed or not |
| `Client.Upload` | `src/HdfsIO.cpp:20-256` | on a fresh temp path: any calls, a close that returns, and the HDFS file holds exactly what the calls describe; the local disk is as before; with reliable disk and name node every write is taken whole and close returns |
| `Client.Start` | `src/HdfsIO.cpp:20-107` | when such an upload can start at all, and that it then has an empty HDFS file and an empty temp file |
| `IOHandler.HdfsIOHandler.Read` | `src/HdfsIO.cpp:164-176` | returns the bytes at the stream position and advances it, all that was asked for or is left on a reliable name node; raises the end flag iff below 65536; a failure is a huge unsigned result and leaves the flag |
| `Readers.DrainingEnds` | `src/HdfsIO.cpp:164-176` | reading until eof makes at most size / 65536 + 1 reads, whatever their sizes |
| `Readers.DrainingIsComplete` | `src/HdfsIO.cpp:169-171` | with reads short only at the end of the file, the collected bytes are the file iff the unit is at least 65536 or the file fits one read |
| `Names.StripHostOfPlainPath` | `src/HdfsPool.cpp:218-225` | stripping the host leaves a path alone iff it has no colon |
| `Names.StripHostOfUri` | `src/HdfsIO.cpp:38-45` | of a path with a host part what follows the first colon is left |
| `Names.StagedIsUndone` | `src/HdfsIO.cpp:399-400` | dropping seven characters undoes the `.upload` that was appended |
| `Names.StagedIsInjective` | `src/HdfsPool.cpp:325` | different names have different staging paths |
| `Names.PlainStagingPath` | `src/HdfsIO.cpp:38-45` | the handler of a plain name's upload opens the staging path itself |
| `Names.HostPartsCollide` | `src/HdfsIO.cpp:38-45` | a name with a host part is staged in the same HDFS file as the name without it |
| `Names.TempPathOfName` | `src/HdfsIO.cpp:47-98` | the temp path spelled out for a name with a directory and for one without a slash |
| `Names.TempPathIsInFolder` | `src/HdfsIO.cpp:85-98` | it lies directly in the plugin's folder under the configured one |
| `Names.TempPathsCollide` | `src/HdfsIO.cpp:47-98` | two temp paths are the same iff the random strings followed by the file names are |
| `Names.SameNameSameTempPath` | `src/HdfsIO.cpp:47-98` | uploads of the same last component in different directories share a temp path whenever the random strings agree |
| `Names.ParentChain` | `src/HdfsPool.cpp:314-318` | for a name with a slash the directories created are exactly its ancestors |
| `Names.ChainAvoids` | `src/HdfsPool.cpp:314-325` | under compatible names no created directory is another session's staging or final path |
| `Promotion.PromotionsAgree` | `src/HdfsPool.cpp:213-260` | any sequence of eager, lazy and stale lazy promotions leads to the same catalog: available, size of the HDFS file, all else untouched |
| `Promotion.PromotionRecordsFileSize` | `src/HdfsIO.cpp:446-455` | of an uploaded file every promotion leaves the record available with the number of its bytes, whatever size was recorded |
| `Promotion.PromotionsWithFaults` | `src/HdfsPool.cpp:213-260` | the record after any sequence of promotions with any faults: available iff one wrote the status, the right size iff one wrote it or it was right |
| `Promotion.FinishedCondition` | `src/HdfsIO.cpp:432-459` | so promotion is finished iff some attempt wrote the status, and some wrote the size unless it was right |
| `Promotion.RepairCondition` | `src/HdfsIO.cpp:432-459` | a lazy promotion repairs a failed eager one iff it failed before the status was written or the size was right |
| `Promotion.StaleSizeStays` | `src/HdfsPool.cpp:253-255` | an available record is never changed again by lazy promotion |
| `Promotion.UnrepairedUpload` | `src/HdfsIO.cpp:446-455` | the failing input: a one-byte upload that stays recorded as empty |
| `Driver.HdfsIODriver.DoneWriting` | `src/HdfsIO.cpp:391-428` | renames or changes nothing, never over a file; the bytes move from the path to the path without its last seven characters, which a reliable name node does whenever that is free and its directories exist; then a registered name is recorded available with the number of bytes, an unknown one throws, and a failure there does not undo the rename |
| `Driver.HdfsIODriver.UpdateReplica` | `src/HdfsIO.cpp:432-459` | returns iff nothing failed, the replica is known and the path exists; then the record is available with the number of bytes of the file; the record each failure leaves |
| `Pool.HdfsPoolHandler.ReplicaIsAvailable` | `src/HdfsPool.cpp:213-260` | true only for a file that exists and is not being deleted; for an available replica iff it exists; for one being populated false iff it is absent and true iff status and size, the number of bytes, were both recorded; the record each failure leaves |
| `Pool.HdfsPoolHandler.WhereToWrite` | `src/HdfsPool.cpp:311-357` | creates the parents, registers the final name as being populated with size 0 and hands out the name with `.upload` on one of the gateways; throws only when the catalog does |
| `Pool.HdfsPoolHandler.RemoveReplica` | `src/HdfsPool.cpp:299-308` | deletes the replica's file, for an unfinished one its staging file first, as far as the name node carries it out, and nothing else; the record goes unless the catalog fails |
| `Pool.HdfsPoolHandler.CancelWrite` | `src/HdfsPool.cpp:359-367` | throws and changes nothing on an empty or unknown location, otherwise removes the path it was given, its own staging path too if the record says being populated, and the record |
| `Pool.HdfsPoolHandler.WhereToRead` | `src/HdfsPool.cpp:264-295` | one chunk with offset 0, the host-free path, the number of bytes (4096 for a directory) and a domain from the gateways |
| `Pool.RemovingUnfinished` | `src/HdfsPool.cpp:301-306` | removing an unfinished replica takes exactly its staging and its final path |
| `Pool.RemovingFinished` | `src/HdfsPool.cpp:299-308` | removing any other replica, one being deleted included, takes its file alone |
| `Pool.RegistryDoesNotFindUploads` | `src/HdfsPool.cpp:350-364` | with a catalog that keeps records, cancelling a registered upload throws iff its staging path is not registered too |
| `Pool.SpaceIsAccountedFor` | `src/HdfsPool.cpp:172-202` | for 0 <= used <= capacity the unsigned subtraction does not wrap, used and free add up to total, and free is the scaled difference or one more |
| `Pool.HdfsPoolHandler.GetFreeSpace` | `src/HdfsPool.cpp:199-202` | the same for the getters as they are called, and when they throw |
| `Tree.ReservingIsConfined` | `src/HdfsPool.cpp:314-318` | whereToWrite adds missing ancestors of the name and touches nothing else |
| `Tree.OpeningIsConfined` | `src/HdfsIO.cpp:38-67` | for a plain name, opening the host-stripped staging path makes it an empty file and touches nothing else but missing ancestors |
| `Tree.RenamingIsConfined` | `src/HdfsIO.cpp:400-404` | the rename to a free final name succeeds, moves the bytes in one step and touches nothing else |
| `Tree.DeletingIsConfined` | `src/HdfsPool.cpp:303-305` | the non-recursive delete of a file succeeds and takes only that file |
| `Protocol.StepKeepsInv` | `src/HdfsPool.cpp:299-367` | whatever temp files are shared, every step of every session keeps all sessions' staging and final paths in the state their stage promises |
| `Protocol.RunKeepsInv` | `src/HdfsPool.cpp:299-367` | so does every interleaved run |
| `Protocol.ExistsIffPublished` | `src/HdfsIO.cpp:391-428` | in every reachable world a final name exists iff its session is published, and is never a directory |
| `Protocol.AppearsOnlyByRename` | `src/HdfsIO.cpp:400-411` | a final name appears only at its own session's rename after a normal close, with the bytes of the staging file |
| `Protocol.PublishedSurvives` | `src/HdfsPool.cpp:299-357` | a published file keeps its bytes through every further run without its removal |
| `Protocol.SessionsDoNotInterfere` | `src/HdfsPool.cpp:311-357` | a step of one session leaves all other sessions' HDFS files and every other path alone, except for creating missing parents |
| `Protocol.CancelIsExact` | `src/HdfsPool.cpp:359-367` | from every reachable unpublished session, cancelWrite deletes the staging file and nothing else, or throws when there is none; the final name stays free |
| `Protocol.RemovalIsExact` | `src/HdfsPool.cpp:299-308` | from every reachable published session the removal works and takes that file alone |
| `Protocol.CancelDeletesStaging` | `src/HdfsNS.cpp:611-635` | the name space answers for whatever exists, so cancelling removes exactly the path it was given |
| `Protocol.ReservingMakesDirectories` | `src/HdfsPool.cpp:314-318` | whereToWrite makes a path a directory iff it is an ancestor of the name, or the name itself without a slash |
| `Protocol.DirectoryIsNotReplaced` | `src/HdfsIO.cpp:400-404` | a final name that is a directory is not published, the upload lands inside it |
| `Protocol.SlashlessNameIsNeverAFile` | `src/HdfsPool.cpp:314-318` | a name without a slash whose "parent" was created is a directory through every run that does not remove it |
| `Uploads.StepKeepsExclusiveInv` | `src/HdfsIO.cpp:77-246` | when handlers open fresh temp paths, every step keeps every session's temp and staging file equal to what its calls and its copy have made of them |
| `Uploads.TempFilesDoNotInterfere` | `src/HdfsIO.cpp:82-103` | then a step of one session leaves the temp files of all others alone, and they hold their own clients' bytes |
| `Uploads.PublicationSafety` | `src/HdfsIO.cpp:391-428` | then whatever exists under a final name is published and holds exactly the bytes its client described |
| `Uploads.PublishedStays` | `src/HdfsPool.cpp:299-357` | and keeps them through every further run without its removal |
| `Uploads.UncheckedDoneWriting` | `src/HdfsIO.cpp:391-411` | on any closed or abandoned upload the rename succeeds; what it publishes is whole iff the staging file has the described length, which a normal close guarantees |
| `Scenarios.AbandonedUploadPublishesNothing` | `src/HdfsIO.cpp:111-131` | the failing run: one write, no close, and doneWriting publishes an empty file |
| `Scenarios.SharedTempPublishesWrongBytes` | `src/HdfsIO.cpp:82-103` | the failing run: two handlers on one temp path, a normal close, and the other client's byte is published |
| `Scenarios.SharedTempExample` | `src/HdfsIO.cpp:82-103` | it happens to /a/x and /b/x from an empty world whenever rand() agrees |
| `Scenarios.UploadCanComplete` | `src/HdfsPool.cpp:311-357` | from every reachable world in which a name is free, no file is in the way and the temp path is fresh, any calls a client makes can be published exactly as described |
| `Scenarios.CloseIsARunOfSteps` | `src/HdfsIO.cpp:203-246` | one close of a handler is a run of single steps of the protocol with the same effect |
| `TempPaths.SafeIffPathsDistinct` | `src/HdfsIO.cpp:82-103` | all interleaved runs publish what their clients described iff the temp paths of different uploads are distinct |
| `NameSpace.IterationFollowsListing` | `src/HdfsNS.cpp:562-607` | on any unchanged listing, call k of readDirx is the stat of the kth entry; from the first entry that cannot be stat'ed on every call throws with the cursor fixed, and without one null comes for ever |
| `NameSpace.StepReadsNextEntry` | `src/HdfsNS.cpp:578-607` | one step in full: the path looked up, the stat's fields, the cursor |
| `NameSpace.JoinGivesChildren` | `src/HdfsNS.cpp:593-599` | the path built for an entry lies directly in the directory and has the entry as its last component |
| `NameSpace.ChildIsJoined` | `src/HdfsNS.cpp:593-599` | every path that lies directly in the directory is built that way from its last component |
| `NameSpace.CallReadsEntry` | `src/HdfsNS.cpp:562-607` | on a listing that names the directory's entries, each call comes back with an entry of the directory under the listed name, then null for ever |
| `NameSpace.IterationIsComplete` | `src/HdfsNS.cpp:562-607` | every entry of the directory comes back, and at exactly one call |
| `NameSpace.StepAtTheEnd` | `src/HdfsNS.cpp:575-584` | null at the end; before it an empty listing makes the call throw |
| `NameSpace.StatFields` | `src/HdfsNS.cpp:194-237` | a stat has the last component, the kind, the number of bytes (4096 for a directory) and the number of entries (1 for a file) |
| `NameSpace.HdfsNS.Stat` | `src/HdfsNS.cpp:194-237` | that stat for what exists, NoEntry for what does not |
| `NameSpace.HdfsNS.OpenDir` | `src/HdfsNS.cpp:491-513` | opens directories only, with the cursor at 0 and the number of entries |
| `NameSpace.HdfsNS.ReadDirx` | `src/HdfsNS.cpp:562-607` | makes exactly the step of `StepReadsNextEntry` on the listing as it is now; a failing stat throws and leaves the cursor |
| `NameSpace.HdfsNS.GetReplicas` | `src/HdfsNS.cpp:383-417` | one available replica per gateway for an existing path, in gateway order, else it throws |
| `NameSpace.HdfsPoolManager.CreatePoolHandler` | `src/HdfsPool.cpp:74-106` | modes r, w, rw and the empty one only |
| `NameSpace.HdfsPoolManager.WhereToRead` | `src/HdfsNS.cpp:711-753` | succeeds iff the mode is r or rw, the path and its host-free form exist and there is a gateway; then one chunk for the whole file on one of the gateways; which error otherwise |
| `NameSpace.HdfsPoolManager.WhereToReadReplicas` | `src/HdfsNS.cpp:719-753` | for any replicas: succeeds iff the mode allows it, there is one and each has a location, and returns one of those; rejects mode "wr" at the pool and an empty list before any modulo |
| `NameSpace.HdfsPoolManager.WhereToWrite` | `src/HdfsNS.cpp:759-795` | succeeds iff the mode is w or rw and the path is free, with the name registered and `.upload` handed out; which error otherwise, HDFS unchanged |
| `Util.TrimmedIsTheCore` | `src/HdfsUtil.cpp:111-121` | the result is the only slice that starts and ends non-blank with only blanks around it, empty iff all is blank, and trimming is idempotent |
| `Util.Trim` | `src/HdfsUtil.cpp:111-121` | the two loops stay in bounds and compute that slice on every non-empty string |
| `Util.TrimIsAsciiTrim` | `src/HdfsUtil.cpp:115-118` | on 8-bit strings the result is that of trimming ASCII blanks iff that is empty or starts and ends below 0x80 |
| `Util.AccentIsTrimmedAway` | `src/HdfsUtil.cpp:115-118` | the failing input: a leading ISO 8859-1 e-acute is lost |
| `Util.MkdirCallsInOrder` | `src/HdfsUtil.cpp:102-108` | mkdir is called on every directory on the way, shortest first, and on the whole path last |
| `Util.MakePrefixes` | `src/HdfsUtil.cpp:102-108` | the in-place edits of the buffer are all undone and the calls made are exactly those |
| `Util.Mkdirs` | `src/HdfsUtil.cpp:92-109` | the same for the whole function, one trailing slash dropped and longer paths cut at 255 characters |
| `Util.MkdirsCreatesTheChain` | `src/HdfsUtil.cpp:92-109` | with no file in the way all directories on the way and the path exist afterwards; 0 is returned iff the path is new |
| `Util.MkdirsMakesWhatFits` | `src/HdfsUtil.cpp:92-109` | the folder asked for, with or without a trailing slash, exists afterwards iff it fits the buffer, and then so do the directories on the way |
| `Util.GetRandomGateway` | `src/HdfsUtil.cpp:56-69` | one of the gateways of a non-empty list |
| `Gateways.TokensLieBetweenCommas` | `src/HdfsNS.cpp:79-83` | the tokens are all the pieces between commas, empty ones included; nothing follows a last comma |
| `Gateways.GatewayListIsExact` | `src/HdfsNS.cpp:79-88` | after any configure calls the list has no duplicates, exactly the trimmed tokens, in order of first appearance |
| `Gateways.GatewayList.Configure` | `src/Hdfs.cpp:60-69` | the getline loop adds the trimmed tokens of the value that are not there yet |

## Left out

- Renamed: renaming a directory is answered as a failure; the plugin's own uploads are files.
- Appended: bytes count as stored once `hdfsWrite` took them; the result of `hdfsCloseFile`, which the plugin ignores, is not part of this model.
- Remove: the removal of the temp file is assumed to succeed, the plugin does not look.
- SendChunk: EINTR and empty writes come finitely often (`Cluster.stalls`), otherwise the loop of the source spins.
- LocalDisk: files are found by path, so a handler's `Valid` needs its temp path to stay; what happens to handlers whose path is removed or shared is modelled in `Protocol`.
- ReadChunk: a step may read more at once than the 8096 bytes of the source's buffer; the class `HdfsIOHandler` has the buffer.
- Write: write handlers only; on a reader the source uses an uninitialised descriptor.
- WhereToWrite: the replica's file id comes from an uninitialised `stat` and is not modelled; an empty gateway list, which divides by zero in the source, is excluded.
- ReadDirx: if the directory shrank below the cursor the source reads past the listing; callers must not do that.
- Stat: the name comes from dmlite's `Url::splitPath`, which is not part of this model; it is taken to be what follows the last slash, so nothing is said about the root or a path that ends in a slash.
- Lookup: the random server name `getReplicaByRFN` fills in is not modelled; it too needs a non-empty gateway list.
- Trim: not defined on the empty string, where the source computes `size() - 1` on an unsigned zero; gateway tokens therefore need a non-blank character.
- InOrder: a client has one session and one handler at a time for a name; nothing in the plugin orders two.
- Paths are compared as written: normalisation by HDFS ("//", ".", trailing slashes) is not modelled, and paths with a host part only as far as `StripHost` goes.
- Tokens, security contexts, identity mapping, connections, logging, locks and threads, and the errno mapping of `src/Throw.cpp`.
- Seeking, `tell`, `pread` and `fstat` on readers, which rely on `hdfsAvailable` and take a lock twice.
- `readDir`, which writes through a variable it never set.
- Thin wrappers without a decision of their own: unlink, makeDir, rename, setMode, setOwner, utime, CLASSPATH and library path setup, the other configuration keys.
