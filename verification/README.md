# Secure storage, log printing and request framing of mitee: a verified model

This project models three parts of the mitee TEE runtime and proves properties of them for all inputs,
all runs and all points at which a run can be cut off.

* **The secure-storage file system and the objects on top of it.** A storage file keeps its meta record
  and each of its 256-byte blocks in two versions inside one host file. Updates go to the version that is
  not in use and become visible when a four-byte counter is written. The model goes from single raw
  writes up to whole runs over an open object.
* **The printing engine behind the trace output of WebAssembly applications**: number printing, the
  format interpreter, and the buffer that cuts the output into log lines.
* **The request server**: cutting a byte stream into requests, placing the shared memory of the
  parameters in one buffer, and sending the replies.

## How it is built

| file | what it models |
|---|---|
| `Bytes.dfy` | bytes, fixed-width integers, record fields, the bit list behind the version table |
| `HostFs.dfy` | host files as byte strings, what a crash leaves of a write or a directory change, the transfer loops |
| `KeyManager.dfy` | the sealed record: FEK, IV, tag, ciphertext |
| `ReeLayout.dfy` | where counter, meta slots and block slots lie; what opening any host file shows |
| `ReeCommit.dfy` | why staging blocks out of place and then committing is atomic |
| `FlatFile.dfy` | the specification of a storage file: one byte sequence and a cursor |
| `ReeFs.dfy` | the file handle and its operations, proved against that specification |
| `ReeRuns.dfy` | whole runs on one file handle, and files whose commit never came |
| `StorageObject.dfy` | objects: head, attributes, data stream; create and open; file names |
| `ObjectRuns.dfy` | whole runs on one open object |
| `Numerals.dfy`, `Format.dfy`, `LineBuffer.dfy` | number printing, format interpretation, log lines |
| `Opteed.dfy` | request framing, shared-buffer layout, replies |

Code that works on state is written as methods on classes (`Host`, `TeeFsFd`, `TeeObj`, `PrintBuffer`,
`Connection`) with the loops of the source; each is proved against a function of the old state, and the
lemmas are about those functions. Long bodies are cut into several methods (`RewriteBlock`, `PutAndCommit`,
`ReadBlocks`, `RemoveName`, `Advance`, `WriteParts`, `Convert`, `ReadModifier`, `AddUp`, `FillBuffer`,
`Place`, `ServeMessage`).
`Perform`, `TakeTurn`, `PerformAll`, `RunThrough`, `CreateRunOpenRun`, `SeekStep`, `ObjectStep`,
`PerformOnObject`, `CreateThenOpen` and `CreateRunOpenRunObject` have no counterpart in the source: they
call its operations in any order, or one after the other, so that what holds over runs can be said.
Steps of the host file system are kept in a ghost log with the state before each, and every claim about
being cut off is about every step of that log and every state a crash at it may leave.

What is assumed throughout:

* Host calls, memory, randomness and the cipher may fail at any call. Ghost counters named `faults` count
  such failures, so "nothing failed" can be said. Transfers may be short and interrupted; the number of
  interruptions in one call is finite.
* Raw writes reach the disk in order (the file is opened with `O_SYNC`). A write cut off may leave
  anything in its own range, except the write of the four-byte counter, which happens whole or not at all;
  a counter write that is reported as failed may be either. A failing call of another write changes nothing
  beyond what earlier calls of the same loop wrote. A rename or the creation of a name happens whole or not at all.
* The cipher opens what it sealed and nothing else (`KeyManager.Crypto.Lawful`; a trivial cipher that
  meets the law is given, so the law is not contradictory).
* `size_t` and `tee_fs_off_t` have 64 bits; `int` has 32 bits wherever the width shows.
* TEE_DATA_MAX_POSITION is 0xFFFFFFFF and TEE_TYPE_DATA is 0xA00000BF, as the GlobalPlatform TEE Internal
  Core API has them; the headers that define them are not part of this model.
* optee_msg.h is not part of this model: sizes and fields of its structures are parameters, under one law
  that is shown to be satisfiable. The entry function of the TEE is assumed to keep the type and address
  of every parameter and the number of parameters.

Facts about the code that the contracts state exactly:

* The comments in compat/mitee_compat/tee_ree_fs.c:588-602 and 693-708 say that any failure before the
  new meta is committed leaves the content as it was. A write past the end commits twice, so there is a
  moment at which a crash shows the old content extended with zeros up to the cursor (`TeeFsFd.Write`). A
  write shows the old content or the new one and nothing else exactly when it does not start past the end
  (`AtomicExactly`).
* If the counter write of a commit is reported as failed, the disk shows the old content or the new one, and
  the handle may be ahead of the disk. After any operation from a handle in step, failed or not, handle and
  disk agree exactly when opening the file finds the counter of the handle (`CounterOnDisk`, in the contracts
  of `CommitMetaFile`, `Truncate`, `Write`, `Perform` and the object operations). A handle ahead by one
  writes its next meta record over the live one (`AheadIsUnsafe`); nothing in the source closes the handle.
* A truncate that extends a file passes the cursor through a C `int`. A cursor at or past 2^31 comes back
  negative, and that is the only way to a negative cursor (`CursorLostIff`).
* Before its first commit, opening a file fresh from create opens a record of zeros, because counter 0
  selects the slot that was left out. That fails exactly when such a record does not open
  (`UncommittedFile`).
* When an extension over several blocks is cut off, a block beyond the committed length can lie in a hole
  and then refuses later rewrites; what is below the committed length is safe (`StrandedBlock`). On a handle
  whose blocks are all usable, operations leave every block sealed or never written, however they end
  (`AllTidy`), and a block never written is usable exactly while its slot lies past the end of the file or
  when a record of zeros opens (`BlankExactly`).
* A create that fails once its handle is allocated removes the name, also when it stood for an older file
  (`Create`).
* An object write of length zero past the end of the data records a size there is no data for, and that is
  the only object write that does (`DsStaysCovered`). Creating an object with a length but no data does the
  same (`NewObjectDsCovered`). Truncating does not update the size; it stays covered exactly when it is not
  above the new length (`TruncCoveredExactly`). The sum of an object truncate is a `size_t`: where it wraps
  around, the file is cut inside the head or the attributes and holds no object any more
  (`TeeObj.Trunc`, `TruncKeepsObject`).
* After an object seek, file cursor and data position agree exactly when the seek landed at or after the
  first data byte and below 2^31 (`TeeObj.Seek`).
* The size update of an object write puts the file cursor back only when it succeeds. When it fails the
  cursor stays in the head, does not agree with the data position, and the data of the next write starts
  there (`TeeObj.UpdateHead`, `TeeObj.Write`, `WriteAfterFailedUpdate`).
* The stored object size is overwritten by the object type, and the key size in the head is never set
  (`NewHead`, `OpenObject`).
* Create does not truncate an existing temporary file, so completeness of a create is stated for a
  temporary name that is not in use; atomicity is stated without that.
* A create whose rename fails removes the temporary file; one that fails while the file is being built, for
  example because the object is too large, leaves it behind (`CreateObject`, `InitFile`). The next create
  then builds on a name in use.
* A NUL printed with `%c` hides the rest of its log line (`NulHidesRest`). The log loses nothing exactly
  when nothing but NULs follows a NUL within any 127 characters between newlines (`LogConserves`).
* After a header that announces more than six parameters the server drops the header only and reads the
  parameters as the next header (`OversizedMisread`, `OversizedExample`). A client's requests are read as
  what they are exactly when every one of them is well formed (`ReadExactly`).
* A read from a negative cursor delivers nothing when its end reaches zero (`ReadBeforeStart`).
* The server adds up parameter sizes in `size_t`; the regions lie inside the buffer exactly when that sum
  does not wrap (`RegionsFitExactly`).

## Model

| member | source | states |
|---|---|---|
| `Image.WriteAdjacent` | compat/mitee_compat/tee_fs_rpc.c:155-170 | writing two adjacent pieces one after the other is writing them as one, whatever the file held |
| `HostFs.Host.RpcWrite` | compat/mitee_compat/tee_fs_rpc.c:144-175 | for every schedule of short writes, interruptions and errors the file changes by exactly the reported prefix; success means all of it; a counter write is performed whole or not, also when it is reported as failed |
| `HostFs.Host.RpcRead` | compat/mitee_compat/tee_fs_rpc.c:111-142 | for every schedule the bytes delivered are a prefix of the file there; success means all of it up to the end of the file |
| `HostFs.Host.RpcOpen` | compat/mitee_compat/tee_fs_rpc.c:35-93 | opens an existing file as it is, creates an empty one only when asked and absent, changes nothing when it fails |
| `HostFs.Host.RpcRename` | compat/mitee_compat/tee_fs_rpc.c:177-208 | the file of the old name is the file of the new one and nothing else changes; refuses an existing name without overwrite |
| `HostFs.Host.RpcRemove` | compat/mitee_compat/tee_fs_rpc.c:210-229 | on success the name is gone and nothing else changed; on failure nothing changed |
| `KeyManager.SealRoundTrip` | compat/mitee_compat/tee_fs_key_manager_compat.c:161-220 | opening a sealed record gives back its plaintext; a meta record starts with its FEK and gives it back whatever key the caller brings; the IV lies before tag and ciphertext |
| `KeyManager.OnlySealedOpens` | compat/mitee_compat/tee_fs_key_manager_compat.c:229-270 | a record that opens is byte for byte what sealing its plaintext under its own IV and FEK produces |
| `KeyManager.EncryptFile` | compat/mitee_compat/tee_fs_key_manager_compat.c:147-227 | produces the sealed record when the output size is exactly header plus data and the library does not fail, an error otherwise |
| `KeyManager.DecryptFile` | compat/mitee_compat/tee_fs_key_manager_compat.c:229-270 | yields what the record opens to; TEE_ERROR_SHORT_BUFFER for a record without a header or too long, TEE_ERROR_MAC_INVALID for a forged one |
| `Bytes.BitsRoundTrip` | compat/mitee_compat/tee_ree_fs.c:94-101 | the version table is a bit list: reading the bits of the word gives the list back |
| `Bytes.ToggleIsXor` | compat/mitee_compat/tee_ree_fs.c:103-111 | flipping one entry of the list is the exclusive-or of the word with that bit |
| `ReeLayout.SlotsDisjoint` | compat/mitee_compat/tee_ree_fs.c:113-142 | counter, both meta slots and all block slots are pairwise disjoint, for any counter value, and records fit |
| `ReeLayout.Positions` | compat/mitee_compat/tee_ree_fs.c:119-142 | where each meta slot and each version of a block lies, in bytes, and which of them is live |
| `ReeLayout.CommitFlipsMetaSlot` | compat/mitee_compat/tee_ree_fs.c:119-126 | the slot a commit writes is the one the next counter selects, also when the counter wraps at 2^32 |
| `ReeLayout.InfoRoundTrip` | include/mitee_compat/tee/tee_fs_key_manager.h:42-45 | length and version table survive being stored in the meta record, at the offsets of the struct |
| `ReeLayout.InactiveIsSafe` | compat/mitee_compat/tee_ree_fs.c:119-142 | the inactive meta slot and the inactive version of any block meet nothing the live meta names |
| `ReeLayout.TornIsUndisturbed` | compat/mitee_compat/tee_ree_fs.c:588-602 | a write to such a target, torn in any way, leaves counter, live meta and live blocks reading the same |
| `ReeLayout.SameBlocksKeep` | compat/mitee_compat/tee_ree_fs.c:365-400 | a file whose live block slots read the same has the same sealed blocks and the same content |
| `ReeLayout.UndisturbedKeeps` | compat/mitee_compat/tee_ree_fs.c:347-363 | an undisturbed committed file reopens to the same content |
| `ReeLayout.CommittedReopens` | compat/mitee_compat/tee_ree_fs.c:347-363 | opening a committed file shows its content |
| `ReeLayout.CommittedWhole` | compat/mitee_compat/tee_ree_fs.c:347-363 | reopening a committed file keeps every block usable that was, and every block sealed or never written if they were |
| `ReeLayout.CommittedCounter` | compat/mitee_compat/tee_ree_fs.c:347-363 | opening a committed file finds exactly its counter |
| `ReeLayout.BlankExactly` | compat/mitee_compat/tee_ree_fs.c:365-400 | a block never written is usable exactly while its slot lies past the end of the file, or when it lies in a hole and a record of zeros opens |
| `ReeLayout.SameBlocksTidy` | compat/mitee_compat/tee_ree_fs.c:588-602 | what a failed operation writes leaves every block sealed or never written, under the meta it fell back to |
| `ReeLayout.ReadPiece` | compat/mitee_compat/tee_ree_fs.c:660-683 | below the length every block opens, and the part taken from it continues the content read so far |
| `ReeCommit.PieceBounds` | compat/mitee_compat/tee_ree_fs.c:429-435 | the block, offset and size found from the cursor are the intersection of the range with the block |
| `ReeCommit.StagedRead` | compat/mitee_compat/tee_ree_fs.c:437-443 | in the middle of an operation a block not yet rewritten still reads as before the operation |
| `ReeCommit.MergedBlock` | compat/mitee_compat/tee_ree_fs.c:445-448 | putting the piece into the text just read gives old bytes outside the range and new bytes inside it |
| `ReeCommit.StageBlock` | compat/mitee_compat/tee_ree_fs.c:402-416 | writing one more block to its other version and toggling its bit extends the staged range by that block |
| `ReeCommit.StagedCovered` | compat/mitee_compat/tee_ree_fs.c:418-473 | with all blocks staged, every block below the new length is sealed under the new meta |
| `ReeCommit.StagedContent` | compat/mitee_compat/tee_ree_fs.c:418-473 | the content under the new meta is the old one with the bytes spliced in |
| `ReeCommit.StagedTidy` | compat/mitee_compat/tee_ree_fs.c:418-473 | with all blocks staged, every block is sealed or never written under the new meta, if it was under the old one |
| `ReeCommit.PublishedOpens` | compat/mitee_compat/tee_ree_fs.c:285-307 | after the counter write, opening the file finds exactly the new meta under the new counter |
| `ReeCommit.CommitPublishes` | compat/mitee_compat/tee_ree_fs.c:285-307 | and the file is committed with the content staged under that meta |
| `ReeCommit.BeforeCounterWrite` | compat/mitee_compat/tee_ree_fs.c:292-298 | with the new meta record written but not the counter, reopening shows the old content |
| `ReeCommit.AfterCounterWrite` | compat/mitee_compat/tee_ree_fs.c:300-306 | with the counter written, reopening shows the new content |
| `ReeCommit.ShrunkContent` | compat/mitee_compat/tee_ree_fs.c:603-632 | a shorter length in the meta alone shows the cut content and keeps every block usable |
| `ReeCommit.ExtendedContent` | compat/mitee_compat/tee_ree_fs.c:615-629 | zeros written from the old length on are the zero extension of the content |
| `ReeCommit.ShadowedIsSlotSafe` | compat/mitee_compat/tee_ree_fs.c:402-461 | between two counter writes every raw write misses the counter, the live meta slot and the live version of every block, as the disk names them at that moment |
| `ReeCommit.ShadowedIsCrashSafe` | compat/mitee_compat/tee_ree_fs.c:693-708 | a crash at any write of a run of safe writes shows the content of the live meta |
| `ReeCommit.CounterStepIsCrashSafe` | compat/mitee_compat/tee_ree_fs.c:236-249 | a crash at the counter write shows the content before it or after it |
| `ReeCommit.CommitIsCrashSafe` | compat/mitee_compat/tee_ree_fs.c:285-307 | a commit cut off anywhere shows the old or the new content, its writes spare what is live, and no other file is touched |
| `ReeCommit.AheadIsUnsafe` | compat/mitee_compat/tee_ree_fs.c:299-306 | the next meta write of a handle spares what is live on the disk exactly when the two counters are both even or both odd, so never when it is one ahead |
| `ReeCommit.UncommittedFile` | compat/mitee_compat/tee_ree_fs.c:251-283 | opening a file before its first commit opens a record of zeros under counter 0, and fails exactly when that does not open |
| `ReeCommit.InitialMetaWritten` | compat/mitee_compat/tee_ree_fs.c:251-283 | after create the counter is zero and the slot it leaves out opens to the new meta, whatever the file held |
| `FlatFile.OneOp` | compat/mitee_compat/tee_ree_fs.c:603-751 | one operation byte by byte: written bytes, zeros where the file grew, old bytes elsewhere; length, cursor, the bytes a read delivers and what is refused, each spelled out |
| `FlatFile.NoStaleBytes` | compat/mitee_compat/tee_ree_fs.c:603-751 | after any history every byte is the last one written there since it became part of the file, or zero |
| `FlatFile.LengthBounded` | compat/mitee_compat/tee_ree_fs.c:610-613 | no history takes a file past 8192 bytes |
| `FlatFile.SliceSize` | compat/mitee_compat/tee_ree_fs.c:644-652 | the clipped length of a read, wrap-around test included, is the number of bytes there are |
| `FlatFile.CursorLostIff` | compat/mitee_compat/tee_ree_fs.c:618-624 | a cursor turns negative exactly in an extending truncate made at or past 2^31 |
| `FlatFile.AtomicExactly` | compat/mitee_compat/tee_ree_fs.c:728-745 | a write has no other stages than the old and the new content exactly when it does not start past the end |
| `FlatFile.ReadBeforeStart` | compat/mitee_compat/tee_ree_fs.c:644-652 | the wrap-around test turns a read from a negative cursor that reaches zero into a read of nothing |
| `ReeFs.TeeFsFd.EncryptAndWriteFile` | compat/mitee_compat/tee_ree_fs.c:147-177 | one raw write of the sealed record; on failure the disk holds one of its torn images |
| `ReeFs.TeeFsFd.ReadBlock` | compat/mitee_compat/tee_ree_fs.c:365-400 | success delivers what the live version of the block opens to; failure means a fault or a forged record |
| `ReeFs.TeeFsFd.WriteBlock` | compat/mitee_compat/tee_ree_fs.c:402-416 | seals the text into the inactive version and toggles exactly that bit of the new meta, only on success |
| `ReeFs.TeeFsFd.RewriteBlock` | compat/mitee_compat/tee_ree_fs.c:429-461 | the loop body of `out_of_place_write` extends the staged range by one block and shadows everything live |
| `ReeFs.TeeFsFd.OutOfPlaceWrite` | compat/mitee_compat/tee_ree_fs.c:418-473 | stages every block the range meets, with safe writes only; the cursor advances on success and is restored on failure |
| `ReeFs.TeeFsFd.WriteMetaFile` | compat/mitee_compat/tee_ree_fs.c:225-234 | one write to the inactive meta slot; nothing the live meta names is disturbed |
| `ReeFs.TeeFsFd.WriteMetaCounter` | compat/mitee_compat/tee_ree_fs.c:236-249 | success means the counter is on the disk; reported failure, that it is or the disk is unchanged |
| `ReeFs.TeeFsFd.CommitMetaFile` | compat/mitee_compat/tee_ree_fs.c:285-307 | success: counter one higher modulo 2^32, handle and disk agree on the new meta; failure or crash: the disk shows the old or the new content, and the handle is in step exactly when the disk has its counter |
| `ReeFs.TeeFsFd.FtruncateInternal` | compat/mitee_compat/tee_ree_fs.c:603-632 | cuts or zero-extends the content atomically, with the cursor passed through an `int` when extending; afterwards, failed or not, in step exactly when the disk has the handle's counter |
| `ReeFs.TeeFsFd.Truncate` | compat/mitee_compat/tee_ree_fs.c:764-771 | refines truncation of the plain file; cut off or failing, shows the old content or the new; in step afterwards exactly when the disk has the handle's counter |
| `ReeFs.TeeFsFd.Write` | compat/mitee_compat/tee_ree_fs.c:709-751 | refines writing to the plain file; cut off, shows the old content, that extended with zeros to the cursor, or the new; the middle one does occur when the write starts past the end; in step afterwards exactly when the disk has the handle's counter; blocks are left sealed or never written |
| `ReeFs.TeeFsFd.ReadBlocks` | compat/mitee_compat/tee_ree_fs.c:660-685 | the block loop delivers exactly the bytes at the cursor, a prefix of them when something fails |
| `ReeFs.TeeFsFd.Read` | compat/mitee_compat/tee_ree_fs.c:634-691 | refines reading the plain file, from negative cursors too; never meets an unsealed block, so only a fault makes it fail, and then what was read is a prefix |
| `ReeFs.TeeFsFd.Seek` | compat/mitee_compat/tee_ree_fs.c:542-586 | for each kind of seek: the cursor lands at the target, or at zero if that is negative, and a target above the largest position is refused; refines seeking in the plain file |
| `ReeFs.ReadMeta` | compat/mitee_compat/tee_ree_fs.c:309-363 | finds what the counter and the slot it selects say, without prior key; without a fault it fails exactly on an unopenable file, as corrupt |
| `ReeFs.Open` | compat/mitee_compat/tee_ree_fs.c:475-524 | a handle on a committed file shows its content, is in step with the disk, and finds exactly the usable blocks it has |
| `ReeFs.RemoveName` | compat/mitee_compat/tee_ree_fs.c:505-513 | the name is gone unless the removal itself fails, and no other name is affected |
| `ReeFs.Create` | compat/mitee_compat/tee_ree_fs.c:475-529 | an empty handle, counter zero and its first meta record on the disk, all blocks usable if the name was new; no other name is affected at any point; a create that fails after allocation leaves no file of that name unless the removal itself fails; one that fails before changes nothing |
| `ReeRuns.Perform` | compat/mitee_compat/tee_ree_fs.c:542-771 | any operation refines the plain file and keeps the invariants; one that commits brings handle and disk in step; failed or cut off, it shows one of its stages, and the handle is in step exactly when the disk has its counter |
| `ReeRuns.TakeTurn` | compat/mitee_compat/tee_ree_fs.c:542-771 | the same as a predicate on one operation of a run, failed or not, with the raw writes it made |
| `ReeRuns.StagesAre` | compat/mitee_compat/tee_ree_fs.c:693-708 | the contents an operation may be found to have reached, byte by byte: nothing done, all done, or of a write past the end the zeros up to the cursor |
| `ReeRuns.SafeThroughFailures` | compat/mitee_compat/tee_ree_fs.c:693-708 | a run over any number of commits and failures that starts in step: as long as the disk has the handle's counter after each operation, every raw write spares what is live at that moment and a crash anywhere shows a content passed through |
| `ReeRuns.PerformAll` | compat/mitee_compat/tee_ree_fs.c:542-771 | a whole run that goes on after failures: each operation does what it does to the plain file or leaves one of its stages; while the disk has the handle's counter every raw write spares what is live and a crash shows a content passed through; up to the first failure, reports and content are those of one plain file, and from the first commit on a crash shows a content that file goes through |
| `ReeRuns.CreateRunOpenRun` | compat/mitee_compat/tee_ree_fs.c:475-771 | create, a run with a commit, open, another run: without failures every operation reports what it would on one plain file, cursor at zero in between |
| `ReeRuns.StrandedBlock` | compat/mitee_compat/tee_ree_fs.c:365-400 | a block left in a hole by a cut-off extension stays usable exactly when a record of zeros opens |
| `StorageObject.HeadRoundTrip` | compat/mitee_compat/tee_svc_storage.c:50-64 | a head at the front of any file is read back as it was written, each field at its offset in the struct |
| `StorageObject.WriteIsOnStream` | compat/mitee_compat/tee_svc_storage.c:856-905 | an object write does to the data stream what a write at the data position does, keeps attributes and head but for the size |
| `StorageObject.DsStaysCovered` | compat/mitee_compat/tee_svc_storage.c:856-905 | every stage of an object write keeps the size on disk covered by data, exactly unless it is an empty write past the end |
| `StorageObject.PositionAgrees` | compat/mitee_compat/tee_svc_storage.c:1004-1005 | a data position computed from a reported offset agrees with the cursor exactly at or after the data start and below 2^31 |
| `StorageObject.TeeObj.Seek` | compat/mitee_compat/tee_svc_storage.c:966-1014 | for each kind of seek: where cursor and data position land and what is refused; they agree exactly when the seek lands at or after the first data byte and below 2^31 |
| `StorageObject.TeeObj.Read` | compat/mitee_compat/tee_svc_storage.c:803-854 | delivers the bytes at the cursor and moves cursor and data position by their number; from an agreeing cursor that is the slice of the data stream at the data position; closed exactly when corrupt |
| `StorageObject.TeeObj.UpdateHead` | compat/mitee_compat/tee_svc_storage.c:249-285 | changes the size field only, atomically; on success the cursor is put back as far as it fits an `int32_t`, on failure it stays at or right behind the size field; in step afterwards exactly when the disk has the handle's counter |
| `StorageObject.TeeObj.Advance` | compat/mitee_compat/tee_svc_storage.c:889-897 | moves the data position and records a size that has been passed |
| `StorageObject.TeeObj.Write` | compat/mitee_compat/tee_svc_storage.c:856-905 | the data, then the size; cut off, shows one of the stages; keeps cursor and data position agreeing, and after a failed size update they do not agree |
| `StorageObject.WriteAfterFailedUpdate` | compat/mitee_compat/tee_svc_storage.c:249-285 | the data of a write made from where a failed size update left the cursor starts in the head and, as far as it fits before the data, does not reach the stream |
| `StorageObject.TeeObj.Trunc` | compat/mitee_compat/tee_svc_storage.c:907-964 | cuts or zero-extends the file atomically at the length asked for plus head and attributes, modulo 2^64, and leaves size and position alone; head and attributes are still covered exactly when that sum does not wrap; access conflict without write access, a generic error above the limit |
| `StorageObject.NewObjectDsCovered` | compat/mitee_compat/tee_svc_storage.c:362-395 | a new object claims no more data than it has, exactly unless it has a length and no buffer |
| `StorageObject.NewObjectHolds` | compat/mitee_compat/tee_svc_storage.c:362-395 | the file of a new object decodes to type, maximum size, usage, attribute mask and attributes of its source, or to those of a pure data object, then the data |
| `StorageObject.InitFile` | compat/mitee_compat/tee_svc_storage.c:287-407 | success leaves the complete, committed object under the temporary name; a file made but not completed stays; no other name is affected at any point |
| `StorageObject.ReadHead` | compat/mitee_compat/tee_svc_storage.c:173-240 | takes head and attributes out of the file; without a fault it succeeds exactly on a file that holds an object |
| `StorageObject.OpenObject` | compat/mitee_compat/tee_svc_storage.c:409-505 | an object on what the file shows, with the cursor at the first data byte and every block usable that was; without a fault the result is decided by the file: absent, corrupt or open |
| `StorageObject.PublishFile` | compat/mitee_compat/tee_svc_storage.c:565-602 | after the rename the final name shows the complete object; before it and on failure, what it showed before; a failed rename leaves no temporary file unless the removal fails |
| `StorageObject.OpenCreated` | compat/mitee_compat/tee_svc_storage.c:602-655 | opens the renamed file; a file found corrupt is removed, and the name then shows nothing; no other failure removes it |
| `StorageObject.CreateObject` | compat/mitee_compat/tee_svc_storage.c:507-655 | stopped or failing anywhere, the final name shows its previous object, nothing, or the complete new one, and no other name changes; without a fault the outcome is success, access conflict for an existing name, or refusal of a too large object or too long name, and only the too large object leaves a temporary file; on success the object is open on it, all blocks usable if the temporary name was new |
| `StorageObject.CreateThenOpen` | compat/mitee_compat/tee_svc_storage.c:155-247 | create, then open, recovers type, maximum size, usage, attribute mask and attributes of the source object, the data size and the data, field by field |
| `StorageObject.HexInjective` | compat/mitee_compat/tee_svc_storage.c:68-110 | different byte strings have different hexadecimal names |
| `StorageObject.HexReadsBack` | compat/mitee_compat/tee_svc_storage.c:68-110 | two capital hexadecimal digits a byte, high half first, read back as the byte |
| `StorageObject.FilenameParts` | compat/mitee_compat/tee_svc_storage.c:91-107 | directory, storage, TA, dot and object each at their place in the name |
| `StorageObject.FilenamesDistinct` | compat/mitee_compat/tee_svc_storage.c:68-110 | two objects of any storages and TAs share a file name only if they are the same one in the same state; no temporary file is another object's file |
| `StorageObject.TemporaryName` | compat/mitee_compat/tee_svc_storage.c:68-110 | an object's temporary name is never its final name |
| `ObjectRuns.TruncCoveredExactly` | compat/mitee_compat/tee_svc_storage.c:907-964 | after a truncate the size on disk is covered exactly when it is not above the new length |
| `ObjectRuns.TruncKeepsObject` | compat/mitee_compat/tee_svc_storage.c:938-943 | after a truncate the file holds an object, with the same head and attributes and the data cut or extended as asked, exactly when the sum does not wrap; otherwise it is cut inside head or attributes |
| `ObjectRuns.PassedCovered` | compat/mitee_compat/tee_svc_storage.c:803-1014 | every content a growing operation passes through claims no more data than there is |
| `ObjectRuns.PassedKeepsObject` | compat/mitee_compat/tee_svc_storage.c:803-1014 | every content an operation passes through has the same head and attributes, size aside, and a stage of the data stream |
| `ObjectRuns.StreamStagesAre` | compat/mitee_compat/tee_svc_storage.c:803-964 | the contents of the stream an operation may be found to have reached, byte by byte |
| `ObjectRuns.OneStreamOp` | compat/mitee_compat/tee_svc_storage.c:803-1014 | one operation on the stream, byte by byte: content, position, bytes delivered, and what is refused |
| `ObjectRuns.ObjectStep` | compat/mitee_compat/tee_svc_storage.c:803-1014 | one operation on an object is that operation on its data stream, over both layers; a seek lands at its target in the data, for each kind of seek |
| `ObjectRuns.PerformOnObject` | compat/mitee_compat/tee_svc_storage.c:803-1014 | a whole run: results and end state of one stream with a position, cursor = head + attributes + position throughout; cut off anywhere, truncates included, the file shows the same head and attributes and a stage of that stream, and a growing run never claims more data than there is |
| `ObjectRuns.HeadKeptDecodes` | compat/mitee_compat/tee_svc_storage.c:155-247 | a file whose head is kept, size aside, decodes to the same object with the same attributes |
| `ObjectRuns.CreateRunOpenRunObject` | compat/mitee_compat/tee_svc_storage.c:409-1014 | create, run, open, run on an object: without failures both runs are runs on one data stream that starts as the initial data, and the reopened object carries every field of the source object |
| `Numerals.NumeralReadsBack` | wasm/libtee_builtin_wrapper.c:601-685 | reading a numeral gives its number; there is no leading zero and no capital letter |
| `Numerals.NumeralLength` | wasm/libtee_builtin_wrapper.c:607-608 | a number has at most k digits exactly when it is below the k-th power of the base |
| `Numerals.PrintDecUint` | wasm/libtee_builtin_wrapper.c:650-685 | for every 32-bit number, padding and width the loop prints the padded numeral |
| `Numerals.PrintedDecReadsBack` | wasm/libtee_builtin_wrapper.c:650-685 | its length is max(digits, min(max(width, 1), 10)) or, padded after, max(digits, width); around the digits there are zeros or spaces as the padding says, and the digits read back |
| `Numerals.PrintHexUint` | wasm/libtee_builtin_wrapper.c:601-638 | for every 64-bit number, padding and width the loop prints the padded numeral |
| `Numerals.PrintedHexReadsBack` | wasm/libtee_builtin_wrapper.c:601-638 | its length is max(digits, min(width, 16)) or, padded after, max(digits, 2 * width); around the digits there are zeros or spaces as the padding says, and the digits read back |
| `Numerals.DecShows` | wasm/libtee_builtin_wrapper.c:650-685 | in a printed decimal number a reader finds that number, without leading zeros, with that padding and width and nothing else |
| `Numerals.HexShows` | wasm/libtee_builtin_wrapper.c:601-638 | the same for a printed hexadecimal number |
| `Numerals.SpacesAfter` | wasm/libtee_builtin_wrapper.c:632-637 | the filling loop prints that many spaces, none for a negative count |
| `Format.OneModifier` | wasm/libtee_builtin_wrapper.c:723-760 | flags, width and length of a directive, defined on its modifiers as a whole, change by one more modifier as the switch changes them |
| `Format.VaArg` | wasm/libtee_builtin_wrapper.c:80-91 | an argument is taken exactly when it lies in the native range, and moves the pointer by its size |
| `Format.Convert` | wasm/libtee_builtin_wrapper.c:762-883 | every conversion prints and takes what its directive alone does, and stops at a missing argument or bad string; what that is, the next rows say |
| `Format.NumberIsPrinted` | wasm/libtee_builtin_wrapper.c:762-827 | for any modifiers, `%u`, `%d`, `%i`, `%x`, `%X`, `%p` and their eight-byte forms: the number a reader finds in the printed text is the argument, in its base, with its sign, padding and width; ERR exactly outside the range |
| `Format.CharacterIsPrinted` | wasm/libtee_builtin_wrapper.c:849-855 | `%c` prints its argument as one code |
| `Format.StringIsPrinted` | wasm/libtee_builtin_wrapper.c:828-848 | `%s` prints the string at its argument, then spaces only after a minus; a bad address ends the printing |
| `Format.DoubleIsPrinted` | wasm/libtee_builtin_wrapper.c:860-876 | `%f` takes the eight bytes at the next multiple of eight |
| `Format.UnknownIsPrinted` | wasm/libtee_builtin_wrapper.c:856-881 | any other conversion prints itself after a percent sign and takes no argument; a percent sign prints once |
| `Format.DirectiveFirst` | wasm/libtee_builtin_wrapper.c:711-887 | in front of any other format a directive does what it does alone |
| `Format.UsualFlags` | wasm/libtee_builtin_wrapper.c:723-760 | digits are the width, a zero before them asks for zeros, a minus for spaces behind |
| `Format.ReadModifier` | wasm/libtee_builtin_wrapper.c:723-760 | keeps the collected flags those of the modifiers read |
| `Format.Vprintf` | wasm/libtee_builtin_wrapper.c:695-892 | the character loop prints the directive-by-directive meaning of the format and succeeds exactly when that does |
| `Format.FineExactly` | wasm/libtee_builtin_wrapper.c:87-91 | all is printed exactly when the last argument, placed by the format alone, ends in range and every string is valid |
| `Format.StopsAtFirstMissing` | wasm/libtee_builtin_wrapper.c:87-91 | otherwise printing stops at the first argument that does not fit, after exactly what precedes it |
| `Format.MeaningConcat` | wasm/libtee_builtin_wrapper.c:711-887 | the meaning of two formats one after the other is the one followed by the other from where its arguments end |
| `Format.EscapedIsPrinted` | wasm/libtee_builtin_wrapper.c:712-720 | any text with its percent signs doubled is printed as it is and takes no argument |
| `Format.SignedReadsBack` | wasm/libtee_builtin_wrapper.c:779-785 | a signed number reads back, from INT32_MIN on; the width counts the sign |
| `LineBuffer.Conserved` | wasm/libtee_builtin_wrapper.c:903-920 | lines and buffer together hold every character but newlines once and in order; lines have at most 127, the buffer at most 126 |
| `LineBuffer.BreaksAt127` | wasm/libtee_builtin_wrapper.c:903-920 | a text without newlines breaks after every 127 characters and nowhere else; a newline ends the line at hand, even an empty one |
| `LineBuffer.LinesAreCut` | wasm/libtee_builtin_wrapper.c:903-920 | for any text the buffer makes the lines found by cutting each stretch between newlines on its own |
| `LineBuffer.CutLength` | wasm/libtee_builtin_wrapper.c:911-915 | line i of such a stretch is its characters from 127 i to 127 (i + 1) |
| `LineBuffer.LogConserves` | wasm/libtee_builtin_wrapper.c:903-920 | log and buffer show every character but newlines and NULs, exactly when in the printed text nothing but NULs follows a NUL within any 127 characters counted from a newline, nor before the next newline |
| `LineBuffer.NoNulNoLoss` | wasm/libtee_builtin_wrapper.c:903-920 | a text that prints no NUL meets that condition |
| `LineBuffer.NulHidesRest` | wasm/libtee_builtin_wrapper.c:906-910 | an input for which the log loses a character |
| `LineBuffer.PrintBuffer.PrintfOut` | wasm/libtee_builtin_wrapper.c:903-920 | one character: the buffer array and the log change as the lines do, and the index stays inside the array |
| `LineBuffer.PrintBuffer.Syslog` | wasm/libtee_builtin_wrapper.c:908-908 | the log gets the buffer up to its first NUL |
| `Opteed.DecodeEncoded` | server/opteed.c:140-189 | any run of well-formed requests at any place of a stream decodes to exactly those, and decoding goes on right after them |
| `Opteed.DecodedWellFormed` | server/opteed.c:140-189 | from any stream only well-formed requests are read |
| `Opteed.ReadExactly` | server/opteed.c:140-189 | a client's requests, cut off inside a next header or not, are read as what they are exactly when every one is well formed |
| `Opteed.OversizedMisread` | server/opteed.c:146-147 | after a header with too many parameters their bytes are served as a request if they read as one |
| `Opteed.OversizedExample` | server/opteed.c:146-147 | seven empty parameters are such an input |
| `Opteed.RegionBounds` | server/opteed.c:191-201 | every parameter's region lies inside the buffer, inputs in its front part and outputs in its back part |
| `Opteed.RegionsDisjoint` | server/opteed.c:191-201 | no byte belongs to two parameters |
| `Opteed.RegionsTile` | server/opteed.c:191-201 | a byte belongs to some parameter exactly when it lies in the buffer |
| `Opteed.RegionsFitExactly` | server/opteed.c:161-171 | with the sum the code computes, all regions lie inside the buffer exactly when it did not wrap |
| `Opteed.RegionHoldsContents` | server/opteed.c:185-201 | the input bytes, received in one piece, put in each input region exactly the bytes sent for it |
| `Opteed.SliceSent` | server/opteed.c:216-226 | what is sent back of a parameter is a prefix of its own region, no longer than announced and than reported |
| `Opteed.ReplyPiece` | server/opteed.c:210-226 | the pieces of a reply follow each other in the order of the parameters |
| `Opteed.EntryFinds` | server/opteed.c:173-204 | at the address it finds in an input parameter, in the buffer it is called with, the entry function finds the bytes the client sent for it |
| `Opteed.GivenApart` | server/opteed.c:191-201 | no address belongs to two of the parameters it finds |
| `Opteed.ReplyIs` | server/opteed.c:210-226 | the client gets header and parameters, then for each output in order what the entry function left at its address, as much as both sizes allow |
| `Opteed.Connection.OpteeRecv` | server/opteed.c:96-111 | for every way `recv` cuts the stream, success delivers exactly the next bytes; failure means the stream ended or failed |
| `Opteed.Connection.OpteeSend` | server/opteed.c:113-127 | success sends all; in any case a front part is sent |
| `Opteed.Connection.AddUp` | server/opteed.c:157-171 | the sums modulo 2^64, and the sizes of the parameters with shared memory |
| `Opteed.Connection.FillBuffer` | server/opteed.c:173-189 | afterwards the buffer, reused or moved, is large enough and starts with exactly the next input bytes of the stream; fails only by a fault or the end of the stream |
| `Opteed.Connection.Place` | server/opteed.c:191-201 | every parameter gets the address of its own region and is otherwise unchanged |
| `Opteed.Connection.ReceiveMessage` | server/opteed.c:141-155 | takes exactly a header and its parameters off the stream, or exactly an oversized header |
| `Opteed.Connection.ServeMessage` | server/opteed.c:157-226 | the reused buffer is large enough; the entry function is called once, with the header and the placed parameters of the stream and the very buffer that holds the input bytes at those addresses, and the reply is sent from what it left in that buffer |
| `Opteed.Connection.SendReply` | server/opteed.c:210-226 | message and slices in order; always a front part of the reply, so a slice that cannot be sent drops the remaining ones; given up only when the message itself cannot be sent |
| `Opteed.Connection.OpteeThread` | server/opteed.c:129-232 | for every fragmentation the requests served are those of the stream in order, each by one call of the entry function; what was sent is a front part of each reply in order; if nothing fails, all of them |

## Left out

- Perform: reads from a negative cursor that end before zero are excluded, because the source then asks for blocks with negative numbers; `CursorLostIff` says exactly how a cursor turns negative.
- PerformAll: the same: a run ends before such a read. Once the counter on the disk is not that of the handle, each later operation is still tied to the plain file, but nothing is said about crashes until an operation commits; from there `SafeThroughFailures` applies again.
- Read: lengths that turn negative as a 64-bit signed number are not modelled, there and in the object read; the guards of the source do not see them and block numbers then wrap in an `int`.
- Truncate: the same for truncation lengths.
- Trunc: the same where the sum it passes to the file turns negative as a 64-bit signed number.
- ReadBlock: the caller's treatment of TEE_ERROR_ITEM_NOT_FOUND is not modelled, because no path of `read_block` returns it.
- OpenObject: a file whose authentic meta names blocks that are not there is not considered.
- PerformOnObject: seeks that land before the data or at 2^31 and beyond are excluded, and truncate lengths from 2^63 on; `TeeObj.Seek` and `TeeObj.Trunc` say what they do. A run ends at the first failure, because cursor and data position may then cease to agree (`TeeObj.Write`).
- Vprintf: the width is an unbounded integer, so the overflow of a `min_width` of ten digits and more is not modelled.
- Convert: the text `snprintf` makes of a double is a parameter.
- ServeMessage: stops where the sum of the sizes has wrapped, because the source then works outside its buffer.
- OpteeThread: the same; and the message buffer is a sequence of records rather than one array.
- CreateFilename: the size of the buffer the name is written to.
- Caller buffers of reads and writes are sequences, so aliasing between a buffer and a file's state is not captured.
- The retry of `tee_fs_rpc_open` that makes the parent directory, and the close and fsync calls.
- Reference counting of persistent objects (`tee_pobj_*`), the attribute library, handle and flag checks before the storage calls.
- Deleting and renaming objects: one call each to operations modelled here.
- Key derivation, AES-GCM itself, random numbers, builds with FS_PLAINTEXT.
- RPMB storage, the host file server, sockets, WebAssembly and ELF loading, the wrappers around TEE calls: forwarding with one check each.
