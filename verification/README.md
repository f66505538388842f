# A verified model of Hail: CLD and chunkd

Hail holds two services and a support library. CLD is a coarse lock and small-file server: clients open
sessions, name inodes by path, read and write them, and take locks on them. Chunkd stores objects under
keys, with a checksum for each 64 KiB of an object. This project models the parts of both that carry
state or arithmetic worth a proof, and proves what holds over every input and every run.

| module | what it models |
|---|---|
| `Bytes` | byte strings, little-endian fields |
| `Directory` | directory data as a list of names: the server's edits, the client's cursor |
| `Pathname` | inode names, their split and their join |
| `Namespace` | inodes, the name index and data records |
| `Locks` | the lock records of one inode and the cursor loops over them |
| `Cld` | the CLD server as a state machine over messages, database faults and restarts |
| `CldRuns` | what every run of it keeps, and what single messages do |
| `CldAnswers` | exactly when each message is answered how, and what it leaves |
| `CldGuards`, `CldCounterexamples` | two properties the server keeps only under a guard it does not check |
| `CldDaemon` | the message handlers as imperative code that refines the state machine |
| `Transport` | fragmentation, sequence numbers and reassembly between CLD client and server |
| `Requests` | a CLD client's requests and their callbacks |
| `ObjectFile` | the file of a chunkd object: draft, failed and committed |
| `ObjectStore` | the whole object store, names and files, against a map from path to what it holds |
| `ObjectHistory` | where objects come from and what takes them away, over every run |
| `ObjectReplies` | what the store answers, over every run, by what stands at a path |
| `ObjectWriter`, `ObjectReader` | the backend and its drivers as imperative code, writing and reading objects |
| `SelfCheck` | chunkd's self-check beside concurrent writers |
| `Timers`, `WriteQueue`, `Percent` | timer list, asynchronous write queue, percent-encoding |

State that the program updates in place is a class here; its methods are proved against functions on
values, and the properties are lemmas about those functions and about runs of them.

Modelling decisions:

- Berkeley DB is a set of maps with commit and abort. A message commits all its changes or none; a fault
  may strike any message before its commit, and an `open` either before or after it took its handle
  number. Cursors visit the lock records of an inode in the order of `lock_compare`. Adding a record
  that compares equal to an existing one is refused, as sorted duplicates are.
- The environment is a parameter of each step: the time, faults, random inode numbers, which bytes a
  system call takes or whether it fails, what a connection delivers, what a callback does. A statement that
  holds for all of these holds for all of the environment's behaviour.
- A file is known by name and, once open, by number: unlinking takes the name away, and those who have the
  file open go on with it. A commit that fails leaves its object in use until it is freed, as a separate step.
- SHA-1 is any function to 20-byte strings. XDR headers and signatures are records. Path names of
  objects, which the program derives from keys with SHA-256, are taken to be distinct for distinct keys.
- Inode sizes and versions are kept in 32 bits, directory name lengths in 16, sequence numbers in 64,
  each with its wrap-around written out. Other counters do not wrap.

Where the code and its own remarks disagree, the model follows the code:

- `inode_lock_rescan` is described as turning waiting locks into held ones (cld/msg.c:312-314), but it
  clears the pending flag in a local variable and writes the record back unchanged; and pending records
  do not come first in the list, which is ordered by creation time.
- `cld_timer_add` inserts before timers of the same expiry, so of two timers set for the same second the
  later one fires first.
- The escape table of lib/huri.c lets a backslash stand, which section 2 of RFC 3986 does not allow in a
  URI; and it writes hex digits in lower case where section 2.1 of RFC 3986 recommends upper case.

## Model

| member | source | states |
|---|---|---|
| `Bytes.LeRoundTrip` | chunkd/be-fs.c:844-846 | an integer that fits a little-endian field is read back as stored |
| `Directory.AppendIsListAppend` | cld/msg.c:154-188 | appending a record to whole directory data appends its name to the listing, if and only if the name is shorter than 65536 bytes, the range of the length field |
| `Directory.RecordLayout` | include/cld_common.h:32 | a record takes the least multiple of eight bytes that holds length field and name, in that order, low byte first, filled up with zeros |
| `Directory.CutIsListRemove` | cld/msg.c:132-152 | cutting a found record out of the bytes removes exactly the first such name from the listing, for any bytes |
| `Directory.WholeIffSplits` | lib/cldc.c:1219-1247 | bytes parse as whole exactly when they are a concatenation of 8-aligned records, and then into as many names as records |
| `Directory.ParseTail` | cld/msg.c:88-130 | replacing what follows the k-th record keeps the first k names and appends those of the new tail |
| `Directory.NthRecord` | cld/msg.c:88-130 | the k-th name stands in the record at the k-th offset, which the listing before and after it does not share |
| `Directory.DirentFind` | cld/msg.c:88-130 | finds the first record with the name and its extent, or says not found or corrupt according to whether the data is whole |
| `Directory.DirdataDelete` | cld/msg.c:132-152 | edits the buffer in place to the data without the first match; otherwise leaves it alone |
| `Directory.MoveDown` | cld/msg.c:132-152 | the overlapping move leaves the bytes before the record followed by those after it |
| `Directory.DirdataAppend` | cld/msg.c:154-188 | the new buffer is the old data followed by one record |
| `Directory.DirentCount` | lib/cldc.c:1219-1247 | succeeds exactly on data that splits into whole records and gives their number |
| `Directory.Cursor.constructor` | lib/cldc.c:1301-1306 | a new cursor has the whole listing ahead |
| `Directory.Cursor.Length` | lib/cldc.c:1249-1270 | gives the length of the record at the cursor, failing exactly when there is none |
| `Directory.Cursor.First` | lib/cldc.c:1272-1281 | succeeds exactly when a name is ahead |
| `Directory.Cursor.Next` | lib/cldc.c:1283-1299 | passes exactly one name and says whether another is ahead |
| `Directory.Cursor.Name` | lib/cldc.c:1313-1327 | returns the name at the cursor |
| `Directory.ListNames` | tools/cldcli.c:215-246 | the ls command lists exactly the names, in order, if and only if the data is whole records, and otherwise nothing |
| `Pathname.ParseThenJoin` | cld/msg.c:39-86 | every valid path but the root is its parsed directory joined with its parsed last component, and both are valid |
| `Pathname.JoinThenParse` | cld/msg.c:39-86 | a valid directory joined with a component is a valid path that parses back to the two |
| `Pathname.JoinInjective` | cld/msg.c:54-86 | different directory and component pairs make different paths |
| `Namespace.StoreKeepsInv` | cld/msg.c:263-282 | storing data and touching the inode keeps every inode's recorded size, kind and listing right |
| `Namespace.CreateKeepsInv` | cld/msg.c:571-628 | a create keeps names unique, sizes exact and every directory a duplicate-free list of existing names |
| `Namespace.DeleteKeepsInv` | cld/msg.c:904-1017 | so does a delete |
| `Namespace.TreeListsChildren` | cld/msg.c:571-628 | in a tree a directory lists a component exactly when the joined path is an existing inode |
| `Namespace.CreateKeepsTree` | cld/msg.c:571-628 | a create keeps the tree if and only if the parent is a directory, which the code does not check |
| `Namespace.DeleteKeepsTree` | cld/msg.c:904-1017 | a delete of a file or an empty directory keeps the tree |
| `Locks.AddOk` | cld/cldb.c:965-1024 | a request is granted only without a conflicting holder, waits only against one and only if asked to, otherwise changes nothing; holders stay all shared or a single exclusive one |
| `Locks.AddOutcome` | cld/cldb.c:983-1021 | a request is granted exactly without a conflict, waits exactly against one if it may, and is refused otherwise or if the handle already asked in the same second |
| `Locks.ConflictIff` | cld/cldb.c:906-963 | it conflicts exactly when granting it would leave holders that are neither all shared nor one |
| `Locks.SortedByTime` | cld/cldb.c:88-117 | records stand in the order of their time, then session, then handle |
| `Locks.LockFind` | cld/cldb.c:906-963 | the scan finds a conflict exactly when a granted record conflicts |
| `Locks.LockAdd` | cld/cldb.c:965-1024 | the code computes that outcome and that list |
| `Locks.RemoveAllMembers` | cld/session.c:144-231 | removal takes away exactly the session's records, of one handle or of all |
| `Locks.RemoveAllOk` | cld/session.c:154-231 | and keeps the rest sorted and compatible |
| `Locks.RemoveLocks` | cld/session.c:154-231 | deleting at the cursor removes exactly those records and reports a waiter exactly when one is left |
| `Locks.RemoveFirstOk` | cld/cldb.c:846-904 | unlock fails exactly when the handle has no record, and touches no other handle's |
| `Locks.RemoveFirstMembers` | cld/cldb.c:846-904 | exactly one record goes, the oldest of the handle |
| `Locks.LockDel` | cld/cldb.c:846-904 | the cursor loop computes that |
| `Locks.ToldPending` | cld/msg.c:314-375 | only waiting records of connected sessions are told, and all but the first in the list are shared |
| `Locks.ToldIff` | cld/msg.c:314-375 | exactly the connected ones among the leading waiters are told, a run of waiting records of which all but the first are shared |
| `Locks.Rescan` | cld/msg.c:284-385 | the table is unchanged, exactly the leading waiters are told, and none of them counts as a holder afterwards |
| `CldRuns.InitialInv` | cld/server.c:1281-1338 | the database with only the root satisfies the invariant and is a tree |
| `CldRuns.RunKeepsInv` | cld/msg.c:387-1171 | over every run of all messages, faults and restarts: names and inodes correspond, sizes are exact modulo 2^32, every directory decodes to distinct existing children, handles point at live inodes of their kind, 2 <= fh < stored counter <= counter in memory, holders of every lock are compatible |
| `CldRuns.StepKeepsInv` | cld/msg.c:387-1171 | each message keeps all of that |
| `CldRuns.OpenKeepsInv` | cld/msg.c:501-704 | committed, refused and aborted opens keep it |
| `CldRuns.NumberTaken` | cld/cldb.c:736-758 | the number an open takes is free and not 0, and the counters stay ordered whether it commits or aborts |
| `CldRuns.OpenIsFresh` | cld/msg.c:629-677 | a successful open replaces no handle, changes no other, and gives a handle on the named inode |
| `CldRuns.PutFrame` | cld/msg.c:706-787 | a put changes the bytes and inode of one regular file and nothing else; never a directory |
| `CldRuns.PutThenGet` | cld/msg.c:459-486 | what was put is what the next get through any handle on the file returns, with its length |
| `CldRuns.GetMismatch` | cld/msg.c:459-475 | a get meets the size-mismatch error exactly when the data is 2^32 bytes or longer |
| `CldRuns.GetAnswered` | cld/session.c:637-646 | a get that may read is answered with the inode and all its data exactly when the data fits the payload; between that and 2^32 bytes no reply is sent |
| `CldRuns.RunReads` | cld/msg.c:459-475 | no read meets that error in any run with 131072 + 264 bytes per message below 2^32 |
| `CldRuns.StepBounded` | cld/msg.c:706-787 | a message lengthens no data record by more than one directory record beyond the payload limit |
| `CldRuns.DelKeepsInv` | cld/msg.c:864-1038 | deletes keep the invariant, handles of the deleted inode included |
| `CldRuns.LockEffect` | cld/msg.c:1100-1171 | a lock request adds exactly its own record or changes nothing; it waits if and only if a holder conflicts, and trylock never leaves a waiting record |
| `CldRuns.UnlockEffect` | cld/msg.c:1040-1098 | an unlock removes exactly the oldest record of its handle on its inode, and fails exactly when there is none |
| `CldRuns.CloseEffect` | cld/msg.c:789-862 | a close removes its handle and exactly that handle's records on the handle's inode |
| `CldRuns.SessionGone` | cld/session.c:233-385 | ending a session leaves all others' handles and locks, and all of its own locks go if and only if each of them lay on an inode it had a lock handle on |
| `CldAnswers.PickExact` | cld/cldb.c:621-650 | a new inode gets the first usable of the first 100000 random numbers, if there is one |
| `CldAnswers.OpenAnswered` | cld/msg.c:501-570 | an open is granted if and only if the name is good and, if it exists, it is not to be created exclusively and its kind is the mode's, or, if not, it is to be created, its parent is there and a number is found; each refusal has its own exact condition |
| `CldAnswers.OpenLeaves` | cld/msg.c:571-677 | a refused open changes nothing; one of an existing name leaves the namespace; one of an absent name adds exactly that name; either adds one handle with the session's next number |
| `CldAnswers.CreateTouches` | cld/msg.c:571-660 | a new inode has version 1 and the time, its parent's version and time advance, no other inode changes |
| `CldAnswers.GetRefused` | cld/msg.c:420-457 | a get is refused exactly without a handle or without permission to read, and changes nothing |
| `CldAnswers.PutAnswered` | cld/msg.c:706-787 | a put goes through exactly through a handle that may write, on a regular file; then the data is there and version and time advanced |
| `CldAnswers.DelAnswered` | cld/msg.c:864-1038 | a delete goes through exactly for an existing name its parent lists that is no directory with entries; name, inode and handles go, nothing else |
| `CldAnswers.DeleteKeys` | cld/msg.c:955-1014 | and the parent's version and time advance, no other inode or data changes |
| `CldAnswers.DelInTree` | cld/msg.c:864-1038 | in a tree exactly the root and directories with entries cannot be deleted |
| `CldAnswers.LockAnswered` | cld/msg.c:1100-1171 | which lock requests are granted, wait or are refused, exactly |
| `CldAnswers.UnlockRefused` | cld/msg.c:1040-1098 | an unlock is refused exactly without a handle or without permission to lock, besides having nothing to unlock |
| `CldAnswers.CloseAnswered` | cld/msg.c:789-862 | a close succeeds exactly for a handle that is there |
| `CldAnswers.NewSessAnswered` | cld/session.c:816-907 | a new session is refused exactly if it is known, and else starts at handle 2 |
| `CldAnswers.EndSessAnswered` | cld/session.c:387-402 | a session's end leaves memory in any case and the database unless it fails |
| `CldAnswers.StepRefused` | cld/server.c:169-197 | messages of unknown sessions and undecodable ones are refused, exactly, and change nothing |
| `CldGuards.StepTree` | cld/msg.c:584-590 | a message keeps the tree if and only if it is not a create under a non-directory |
| `CldGuards.RunKeepsTree` | cld/msg.c:501-704 | in runs without such a create every inode but the root is listed by its live parent directory |
| `CldGuards.RunListsChildren` | cld/msg.c:501-704 | and a directory lists exactly its children |
| `CldGuards.StepOwned` | cld/msg.c:983-989 | a message keeps every lock record owned by a live lock handle on the same inode if and only if it does not delete an inode with lock records |
| `CldGuards.RunKeepsOwned` | cld/msg.c:1100-1171 | that ownership holds after every run without such a delete |
| `CldGuards.SessionLeavesNothing` | cld/session.c:233-385 | after such a run, ending a session leaves none of its handles and locks and all of the others' |
| `CldCounterexamples.TreeBroken` | cld/msg.c:584-590 | a concrete run that creates "/f/g" under the file "/f" and loses the tree |
| `CldCounterexamples.LockLeftBehind` | cld/msg.c:983-989 | a concrete run whose lock record outlives its file and its session |
| `CldDaemon.Daemon.constructor` | cld/server.c:1281-1338 | ensure_root makes the initial state |
| `CldDaemon.Daemon.MsgOpen` | cld/msg.c:501-704 | the handler, with its buffers edited in place, takes the step of the state machine |
| `CldDaemon.Daemon.MsgGet` | cld/msg.c:387-499 | so does get, which sends nothing when the data does not fit a reply |
| `CldDaemon.Daemon.MsgPut` | cld/msg.c:706-787 | so does put |
| `CldDaemon.Daemon.MsgDel` | cld/msg.c:864-1038 | so does del |
| `CldDaemon.Daemon.MsgLock` | cld/msg.c:1100-1171 | so does lock |
| `CldDaemon.Daemon.MsgUnlock` | cld/msg.c:1040-1098 | so does unlock |
| `CldDaemon.Daemon.MsgClose` | cld/msg.c:789-862 | so does close, telling exactly the waiters a rescan of the unlocked inode finds |
| `CldDaemon.Daemon.SessionEnd` | cld/session.c:233-402 | session_dispose with its loops over handles, inodes and waiters removes what the one-step definition removes, and tells exactly the waiters a rescan finds on the inodes the session could lock |
| `CldDaemon.Daemon.MsgNewSess` | cld/session.c:816-907 | a new session starts at handle 2, or is refused if it exists |
| `CldDaemon.Daemon.Load` | cld/session.c:960-1022 | a restart rebuilds exactly the stored counters |
| `CldDaemon.Daemon.Serve` | cld/server.c:169-197 | every message takes one step and keeps the invariant |
| `CldDaemon.DropHandles` | cld/session.c:275-318 | the cursor loop drops exactly the session's handles and notes exactly the inodes it could lock |
| `CldDaemon.DropLocks` | cld/session.c:334-368 | the loop over noted inodes removes exactly the session's records there and rescans exactly where someone waits |
| `CldDaemon.RemoveNoted` | cld/session.c:334-361 | its first half notes every inode where someone is left waiting |
| `CldDaemon.TellAll` | cld/session.c:363-368 | its second half tells exactly the union of the rescans |
| `Transport.NumberPkts` | cld/session.c:718-738 | packets get consecutive sequence numbers modulo 2^64 |
| `Transport.ServerCut` | cld/session.c:649-716 | the server's loop cuts a message into the specified packets with their FIRST, MID and LAST order |
| `Transport.ClientCut` | lib/cldc.c:539-642 | the client's loop makes the same packets |
| `Transport.AcceptIff` | lib/cldc.c:389-423 | with a window 25 wide an ordinary number is accepted exactly when it is at most 25 behind the next one modulo 2^64, and only the next one moves the window |
| `Transport.RunKeepsWindow` | lib/cldc.c:389-423 | the window stays 25 wide over every run of packets that begins with NEW_SESS |
| `Transport.ClientReassembles` | lib/cldc.c:425-520 | every message of 0 to CLD_MAX_MSG_SZ bytes delivered in order is accepted throughout and completes exactly once, whole, on its last packet |
| `Transport.ServerReassembles` | cld/server.c:199-243 | the same from client to server; and a longer message, which the client does not refuse, is cut off by the server and never completes |
| `Transport.FragmentExact` | cld/session.c:649-750 | the packets of a message are of its session, consecutively numbered, full but for the last, marked first and last exactly at the ends, and their bodies make up the message |
| `Transport.Arrived` | lib/cldc.c:425-520 | after delivery each side holds exactly the message and its operation, the server its number too, and has counted its packets |
| `Transport.ServerSession.SendMsg` | cld/session.c:623-763 | queues exactly the fragments of the message, refusing only messages that are too long |
| `Transport.ServerSession.TcpRx` | cld/server.c:199-243 | the code takes the reassembly step |
| `Transport.ServerSession.MsgAck` | cld/session.c:775-814 | an acknowledgement removes exactly the packets of that number and leaves the others |
| `Transport.UnackedKeeps` | cld/session.c:775-814 | packets of other numbers stay, in order |
| `Transport.UnackedDrops` | cld/session.c:775-814 | a packet of that number goes, wherever it stands |
| `Transport.ClientSession.Send` | lib/cldc.c:725-760 | sends exactly the fragments of the message |
| `Transport.ClientSession.ReceivePkt` | lib/cldc.c:425-520 | the code takes the reassembly step |
| `Requests.RunKeeps` | lib/cldc.c:164-219 | over every run each request sent is still waiting, was called back once, or lapsed unanswered, and only one of these |
| `Requests.AtMostOnce` | lib/cldc.c:644-676 | a request's callback runs at most once over responses, duplicates, scans and expiry |
| `Requests.CalledIff` | lib/cldc.c:164-219 | in every run a request has been called back exactly when an event found it waiting and was the session's expiry, or a response with its number for which it was first in the list |
| `Requests.OnceUnlessLapsed` | lib/cldc.c:644-676 | once the session has expired it ran exactly once, unless a due scan later than the request's expiry came first |
| `Requests.LapsedIff` | lib/cldc.c:324-343 | at every moment of every run a request has lapsed exactly when such a scan came before its callback |
| `Requests.Client.SessSend` | lib/cldc.c:725-760 | a request joins the front of the list, to expire after 300 seconds |
| `Requests.Client.RxmsgGeneric` | lib/cldc.c:164-219 | a response marks the first request with its number done and calls it back, unless it was done; nothing else changes; an unknown number is an error |
| `Requests.Client.ExpireOutmsg` | lib/cldc.c:324-343 | a due scan drops exactly the requests past their time, and the next is due after 60 seconds |
| `Requests.Client.MsgDrop` | lib/cldc.c:644-661 | a failed session calls back exactly those still waiting |
| `Requests.Client.SessTimer` | lib/cldc.c:688-723 | fails the session after its time, else sends again exactly what still waits |
| `ObjectFile.FlatEntry` | chunkd/be-fs.c:684-694 | entry i of the stored table is the i-th checksum |
| `ObjectFile.HeaderFields` | chunkd/be-fs.c:823-846 | the header is read back field by field |
| `ObjectFile.OpenImage` | chunkd/be-fs.c:430-560 | open accepts exactly the owner of a committed file and finds the key, size, hash, table and value committed |
| `ObjectFile.DraftUnopenable` | chunkd/be-fs.c:430-560 | the file of an object whose commit has not started can never be opened, nor passed for an object by delete |
| `ObjectFile.DraftHeaded` | chunkd/be-fs.c:867-883 | what a header write of any length makes of a draft |
| `ObjectFile.FailedHeader` | chunkd/be-fs.c:937-960 | delete takes the file of a failed commit for an object exactly when the magic number was written and the file is long enough |
| `ObjectFile.FailedOwner` | chunkd/be-fs.c:962-966 | and reads as its owner the part of the name that was written |
| `ObjectFile.FailedOpen` | chunkd/be-fs.c:430-560 | open accepts the file of a failed commit exactly for the user that part spells, and exactly when the key is there; it then finds size, hash and value, and of the table what was written |
| `ObjectFile.FailedOpenByOwner` | chunkd/be-fs.c:430-560 | so the owner opens it exactly when it agrees with the complete file on header and key |
| `ObjectFile.ShortHeader` | chunkd/be-fs.c:867-883 | a header write cut short after the key leaves a file that opens with a table of zeros |
| `ObjectWriter.StreamMore` | chunkd/be-fs.c:731-763 | absorbing any piece keeps the streaming state equal to the block table of what was written |
| `ObjectWriter.StreamFlush` | chunkd/be-fs.c:711-729 | so does closing a full block |
| `ObjectWriter.StreamDone` | chunkd/be-fs.c:848-858 | closing the last block makes the table that of the simple definition, with n_blk entries |
| `ObjectWriter.WriteTie` | chunkd/be-fs.c:731-763 | what the write loop does to the volume is the store's write |
| `ObjectWriter.CommitTie` | chunkd/be-fs.c:823-902 | what commit does to the volume, whether it succeeds or fails, is the store's commit |
| `ObjectWriter.FsObj.constructor` | chunkd/be-fs.c:349-428 | a new object's file is an empty draft; this is the store's new |
| `ObjectWriter.FsObj.FlushCsum` | chunkd/be-fs.c:711-729 | stores the hash of the block and starts the next, or does nothing when the table is full |
| `ObjectWriter.FsObj.Write` | chunkd/be-fs.c:731-763 | whatever the short writes, appends exactly the bytes taken, all of them exactly when no call fails; keeps written = csum_idx * 64K + checked; is the store's write beside any other objects |
| `ObjectWriter.FsObj.Commit` | chunkd/be-fs.c:823-902 | succeeds exactly when all of the value was written and the system takes the front; on failure the file holds exactly what landed of it and the object stays in use; is the store's commit |
| `ObjectWriter.FsObj.Free` | chunkd/be-fs.c:562-588 | an uncommitted object unlinks its name, whoever has it; is the store's free |
| `ObjectWriter.PutClient.DataIn` | chunkd/object.c:133-210 | keeps out_len + written = size, so the table never overflows; all is written exactly when no call fails, else the object is freed; is the store's write, then free |
| `ObjectWriter.PutClient.PutEnd` | chunkd/object.c:86-131 | commits the whole object or frees it; is the store's commit, then free |
| `ObjectWriter.ReceiveAll` | chunkd/object.c:133-210 | all announced bytes are written exactly when the connection delivers them and no call fails |
| `ObjectWriter.ObjectPut` | chunkd/object.c:212-241 | a PUT stores the complete object exactly when key and table are good, the path is free, the connection delivers and nothing fails; else every file is as it was |
| `ObjectReader.BlockEnds` | chunkd/be-fs.c:666-703 | the verification loop's blocks end where the value's blocks end |
| `ObjectReader.BlockOfRead` | chunkd/be-fs.c:590-622 | each block of an accepted read is the corresponding block of the value, with an index in the table |
| `ObjectReader.Reader.constructor` | chunkd/be-fs.c:430-560 | an opened object stands at position 0 with the metadata open found |
| `ObjectReader.Reader.Seek` | chunkd/be-fs.c:624-644 | moves to the position exactly when the call succeeds |
| `ObjectReader.Reader.Verify` | chunkd/be-fs.c:666-703 | passes exactly when every block of the read has the stored checksum |
| `ObjectReader.Reader.Read` | chunkd/be-fs.c:646-709 | returns the exact bytes the system reads at the position; a checkable read fails exactly when a block hash differs from the table; an intact object never fails |
| `ObjectReader.OpenCommitted` | chunkd/be-fs.c:430-560 | what commit wrote opens intact with the same size, hash and value |
| `ObjectReader.Replay` | chunkd/be-fs.c:624-709 | any sequence of seeks and reads of a committed object gives one answer for each operation, exactly that of the bytes committed at the position the earlier answers determine |
| `ObjectReader.AnswerExact` | chunkd/be-fs.c:646-709 | such an answer is the exact slice, empty only for length 0 or at the end, and a failure only if the call fails |
| `ObjectReader.PartWindowOk` | chunkd/object.c:386-442 | the length of a part is the least of what is asked, what is left and 256 KiB; its aligned window can always be verified, lies in the value and contains the part, which is the last exactly when it reaches the end |
| `ObjectReader.WindowExact` | chunkd/object.c:394-409 | the window is the least range of whole blocks, but for the end of the value, that contains the part |
| `ObjectReader.GetPart` | chunkd/object.c:357-468 | succeeds exactly when the seek, the full read of the window and its verification do, the last always on an intact object; then returns exactly the bytes at the offset, as many as asked but no more than left or 256 KiB, and flags the last part; a failed seek is told apart |
| `ObjectReader.PartsJoin` | chunkd/object.c:386-463 | whatever lengths are asked for, the parts join to the rest of the object |
| `ObjectReader.PartsCount` | chunkd/object.c:386-463 | asking for length 0 needs one request for each 256 KiB begun |
| `ObjectReader.GetPartsFrom` | chunkd/object.c:386-463 | a client that asks for part after part until one is flagged last gets the parts of the value; from an intact object exactly when the calls behind each part succeed |
| `ObjectReader.GetAllParts` | chunkd/object.c:386-463 | from the start, what it gets joins to the whole value |
| `ObjectReader.CopyAll` | chunkd/object.c:500-520 | the copy loop writes the whole value, exactly when no call fails and every piece read passes verification or cannot be verified; else it frees the new object |
| `ObjectReader.ObjectCopy` | chunkd/object.c:470-541 | a copy commits the complete value under the new key exactly when it can start, nothing fails and every piece read passes, as each does of an intact object; otherwise every file is as it was |
| `ObjectReader.IntactPasses` | chunkd/be-fs.c:666-703 | every piece of an intact object passes, however the reads split it |
| `ObjectStore.StepRefines` | chunkd/be-fs.c:349-985 | each backend operation on names and files is the same operation on a map from path to committed object or object in use, with the same reply |
| `ObjectStore.RunRefines` | chunkd/be-fs.c:349-985 | so is every run of interleaved new, write, commit, free, delete and get, failed commits and late frees included |
| `ObjectStore.NewRefines` | chunkd/be-fs.c:349-428 | a new on a key that exists or is being written changes nothing |
| `ObjectStore.CommitRefines` | chunkd/be-fs.c:823-902 | commit turns exactly its draft into an object, or leaves it as far as it got |
| `ObjectStore.DeleteRefines` | chunkd/be-fs.c:904-985 | delete removes an object for its owner, never a draft, and what a failed commit left exactly when magic and owner show |
| `ObjectStore.FreeRefines` | chunkd/be-fs.c:562-588 | a free unlinks its path, whatever the path holds by then |
| `ObjectStore.GetRefines` | chunkd/be-fs.c:430-560 | a get shows a committed object to its owner, and what a failed commit left exactly when header and key show |
| `ObjectReplies.NamedIff` | chunkd/be-fs.c:349-985 | in every run of the volume a path has a name exactly when it was made and not taken away since |
| `ObjectReplies.DeleteAnswered` | chunkd/be-fs.c:904-985 | a delete is told success if and only if the path has a name before it and none after; no such key exactly when nothing stands; a bad key exactly for one |
| `ObjectReplies.DeleteOfObject` | chunkd/be-fs.c:962-975 | a delete of an object that stands succeeds for its owner and is denied to everyone else |
| `ObjectReplies.DeleteOfHeld` | chunkd/be-fs.c:955-966 | what an object in use left is deleted exactly for the user its header shows |
| `ObjectReplies.NewAnswered` | chunkd/be-fs.c:349-428 | a create is told that the key exists exactly when something stands at the path, and succeeds exactly when nothing does |
| `ObjectReplies.GetAnswered` | chunkd/be-fs.c:430-470 | a get is told no such key exactly when nothing stands at the path |
| `ObjectReplies.GetOfObject` | chunkd/be-fs.c:480-560 | a get of an object that stands shows it to its owner and is denied to everyone else |
| `ObjectReplies.CommitAnswers` | chunkd/be-fs.c:823-902 | a commit is told success exactly when all announced bytes were written and the system takes the front |
| `ObjectReplies.DataIs` | chunkd/be-fs.c:731-763 | over every run an object in use holds exactly the bytes written to it since it was made |
| `ObjectHistory.ObjectsChange` | chunkd/be-fs.c:562-985 | an object appears exactly by a successful commit whose file still has its name, and goes exactly by a successful delete or a free of that path |
| `ObjectHistory.DeletesOwn` | chunkd/be-fs.c:904-985 | a delete of a committed object succeeds for its owner only |
| `ObjectHistory.StepLinks` | chunkd/be-fs.c:574-577 | objects in use keep their names exactly as long as what a failed commit left is not deleted before its free |
| `ObjectHistory.RunLinks` | chunkd/be-fs.c:562-985 | so they do in every run without such a delete |
| `ObjectHistory.LinkedChange` | chunkd/be-fs.c:562-985 | and there only the owner's delete takes an object away, and every successful commit adds one |
| `ObjectHistory.LinkedIff` | chunkd/be-fs.c:562-985 | in every run each object in use began at some new, and has lost its name exactly when a delete or another's free took the path away since |
| `ObjectHistory.FreeTakesOther` | chunkd/be-fs.c:574-577 | in every run and for each object in use, its free takes away a file it did not create exactly when its own was unlinked since it began, and the path made anew and not taken away since |
| `ObjectHistory.PresentIff` | chunkd/be-fs.c:349-985 | a path holds something exactly when it was made and not taken away since |
| `ObjectHistory.Origin` | chunkd/be-fs.c:823-985 | every object stems from a successful commit of its owner and bytes, and was not taken away since |
| `ObjectHistory.CommitStands` | chunkd/be-fs.c:823-985 | and such a commit, not taken away since, means that the object stands |
| `ObjectHistory.StoredIff` | chunkd/be-fs.c:823-985 | so in every run an object stands exactly when it was so committed and not taken away |
| `ObjectHistory.GuardedIff` | chunkd/be-fs.c:562-985 | in every run that deletes nothing left by a failed commit, an object stands exactly when a commit of it was answered with success and its owner has not deleted it since |
| `ObjectHistory.FailedOrigin` | chunkd/be-fs.c:823-902 | every object in use after a failed commit stems from that commit and was not freed since |
| `ObjectHistory.FailedStands` | chunkd/be-fs.c:823-902 | and such a commit keeps its object in use until the free |
| `ObjectHistory.FoundIff` | chunkd/be-fs.c:430-560 | a get finds exactly the user's committed objects and what failed commits left showing the user's name and the key |
| `ObjectHistory.FoundOverRun` | chunkd/be-fs.c:430-560 | over every run of the volume, a get returns given bytes with their hash if and only if the user who asks committed them there and nothing took them away since, or a failed commit left them showing to that user, neither unlinked nor freed since |
| `ObjectHistory.FoundWasCommitted` | chunkd/be-fs.c:430-560 | what the volume answered to the commit behind what a get returns: success, or an internal error for what a failed commit left |
| `ObjectHistory.OpenedUncommitted` | chunkd/be-fs.c:885-890 | a run in which what a PUT whose fsync failed left can be opened, as a CP worker can before the free |
| `ObjectHistory.LateFree` | chunkd/object.c:522-533 | a run in which a CP's header is written short, the event loop serves a delete and a PUT before the worker frees its object, and the object stored by that PUT is gone though nobody deleted it |
| `SelfCheck.ObjCache.Get` | chunkd/objcache.c:66-84 | counts one more holder and adds the flag, making the entry if needed |
| `SelfCheck.ObjCache.TestDirty` | chunkd/objcache.c:86-94 | reads the flag of the held entry |
| `SelfCheck.ObjCache.Put` | chunkd/objcache.c:96-117 | counts one holder less; the last one takes the entry away |
| `SelfCheck.NextKeepsCell` | chunkd/objcache.c:43-117 | every step keeps an entry's count equal to its holders, and the entry dirty while a writer holds it |
| `SelfCheck.RunInv` | chunkd/objcache.c:43-117 | so does every interleaving |
| `SelfCheck.ReleaseEnabled` | chunkd/objcache.c:96-117 | no release ever meets a missing entry or a zero count |
| `SelfCheck.DirtyMeansBusy` | chunkd/selfcheck.c:57-97 | while the checker holds an entry, its flag says exactly whether a writer held it at any moment since the checker took it |
| `SelfCheck.CondemnedOnlyIfUndisturbed` | chunkd/selfcheck.c:57-97 | the test condemns exactly when the sums differ and no PUT or CP on the key's hash held the entry between the checker's get and its test |
| `SelfCheck.AsideOnlyIfQuiet` | chunkd/selfcheck.c:48-102 | in every interleaving, an object set aside was taken and tested before with no such writer in between |
| `SelfCheck.VerdictExact` | chunkd/selfcheck.c:50-90 | the verdict is bad exactly when the header hash read first differs from the sum taken later and no writer came by; for a file intact when summed, exactly when its content is not the one whose header was read |
| `SelfCheck.SetAsideExact` | chunkd/selfcheck.c:50-97 | what a check sets aside: the file standing at the key at the rename, exactly when the verdict was bad and there is one; it is the file summed, or the file whose header was read, exactly when the key was not deleted since |
| `SelfCheck.WrongIff` | chunkd/selfcheck.c:50-97 | a check sets aside a file it did not find corrupt exactly when it was quiet, the sum differs from the header read, and the file was deleted and made anew after the sum or was intact at the sum |
| `SelfCheck.AsideByCheck` | chunkd/selfcheck.c:48-102 | every file set aside was set aside by such a check |
| `SelfCheck.SameFileIff` | chunkd/be-fs.c:987-1006 | the file at a key is the same at two moments exactly when nothing took it away in between |
| `SelfCheck.AsideOnlyIfCorrupt` | chunkd/selfcheck.c:48-102 | a file not deleted from the header read to the rename is set aside only if it is the file summed and did not match its header then |
| `SelfCheck.IntactSetAside` | chunkd/selfcheck.c:50-57 | first window: a run in which an object put again before the entry is taken is set aside, although no file ever was corrupt |
| `SelfCheck.ReplacedSetAside` | chunkd/selfcheck.c:70-83 | second window: a run in which an intact object put again between test and rename is set aside in place of the corrupt one |
| `Timers.ApplyOk` | lib/libtimer.c:39-73 | adding and deleting keep the list sorted and duplicate-free and change who is on it by the timer named |
| `Timers.ApplyTimes` | lib/libtimer.c:39-73 | an added timer stands at the time asked for, or one second after the last run if that is not later; the others as they were |
| `Timers.ApplyDue` | lib/libtimer.c:39-63 | during a run an add or delete strikes its timer off the due ones and adds none, thanks to the clamp |
| `Timers.RunFires` | lib/libtimer.c:75-107 | for all callbacks, a run fires, of the timers due at its start and in list order, each one that no earlier callback of the run added or deleted |
| `Timers.FiresInOrder` | lib/libtimer.c:75-107 | hence in nondecreasing order of expiry, each at most once, and none that was not due |
| `Timers.LaterFirst` | lib/libtimer.c:39-63 | of two timers set for the same second, the one set later stands first |
| `Timers.LaterFiresFirst` | lib/libtimer.c:75-107 | and fires first, if both fire in a run |
| `Timers.RunLeaves` | lib/libtimer.c:75-107 | for all callbacks, a run leaves the timers not yet due with all that the callbacks did applied in order, all of it after now |
| `Timers.TimerList.AddTimer` | lib/libtimer.c:39-63 | takes the step with the on_list flag exact for every timer |
| `Timers.TimerList.DelTimer` | lib/libtimer.c:65-73 | so does the delete |
| `Timers.TimerList.Enrol` | include/cld_common.h:57-65 | a new timer is not on the list |
| `Timers.TimerList.Run` | lib/libtimer.c:75-107 | terminates for all callbacks with that log and that list, and returns the time to the next timer |
| `WriteQueue.NothingLost` | lib/atcp.c:102-127 | bytes on the wire followed by bytes still queued are all buffers ever queued, in order |
| `WriteQueue.TookKeeps` | lib/atcp.c:102-127 | a write of any number of bytes keeps that |
| `WriteQueue.CompletedIffWritten` | lib/atcp.c:38-44 | a buffer has left the write queue exactly when all its bytes are on the wire |
| `WriteQueue.EachCallbackOnce` | lib/atcp.c:46-82 | up to teardown each callback runs exactly once, in order, told done exactly when all its bytes were written |
| `WriteQueue.RunDelivers` | lib/atcp.c:38-127 | over every run of enqueues, writes and callbacks, the wire holds the first bytes of the buffers handed in, as many as the socket took, and the queue the rest, all computed from the run's own arguments |
| `WriteQueue.RunCallsAll` | lib/atcp.c:46-82 | and by teardown each buffer handed in, by the caller or by a callback, got exactly one callback, in order, told done exactly when all its bytes were taken |
| `WriteQueue.WriteState.Writeq` | lib/atcp.c:208-232 | a non-empty buffer joins the end of the queue and its length the count, nothing else changes; an empty one is refused |
| `WriteQueue.WriteState.WrIov` | lib/atcp.c:84-100 | offers the unwritten parts of the first 32 buffers |
| `WriteQueue.WriteState.WrCompleted` | lib/atcp.c:102-127 | moves exactly rc bytes from the queue to the wire |
| `WriteQueue.WriteState.Writable` | lib/atcp.c:129-163 | writes what the socket takes of what was offered; a failure of the write, or of removing the event once the queue is empty, tears the queue down, with done told exactly to the buffers written |
| `WriteQueue.WriteState.RunCompl` | lib/atcp.c:60-72 | runs exactly the completed buffers' callbacks, which may queue more |
| `WriteQueue.WriteState.FreeAll` | lib/atcp.c:74-82 | empties both queues, running every remaining callback |
| `Percent.RoundTrip` | lib/huri.c:141-289 | decoding undoes encoding for every field and every mask |
| `Percent.DecodeEncodeThen` | lib/huri.c:141-289 | whatever text follows the encoded field |
| `Percent.EncodedAlphabet` | lib/huri.c:187-221 | the output holds only characters of RFC 3986 if and only if the field has no backslash or the mask lets nothing stand |
| `Percent.PlainIff` | lib/huri.c:187-221 | which bytes stand under which mask, by the classes of RFC 3986 |
| `Percent.EscapeForm` | lib/huri.c:270-283 | an escaped byte is a percent sign and two hex digits in lower case |
| `Percent.DecodePiece` | lib/huri.c:141-185 | an escape in digits of either case decodes to its byte, and anything else stands for itself |
| `Percent.Unescape` | lib/huri.c:141-185 | the in-place loop leaves exactly the decoded bytes and touches nothing after them |
| `Percent.Measure` | lib/huri.c:237-254 | the first pass computes the exact size of the output and escapes nothing only if nothing changes |
| `Percent.Escape` | lib/huri.c:223-289 | the buffer is exactly the encoding and its terminator |

## Left out

- Sockets, libevent, SSL, DNS, configuration, start-up, the command-line and FUSE tools, and the insides of Berkeley DB and Tokyo Cabinet.
- XDR encoding, SHA, HMAC and base64: parameters or records.
- Out-of-memory paths.
- CE_UPDATED and CE_DELETED notifications (`inode_notify`), and any claim that a waiter gets its lock or that clients told CE_LOCKED exclude each other: the code does not support one, see `Locks.Rescan`.
- Wall-clock session expiry, ACK_FRAG handling, `simple_sendmsg` and partial header reads in lib/cldc-tcp.c.
- lib/htab.c: the session table is a map.
- chunkd/server.c's write queue with sendfile: lib/atcp.c is the same idea.
- `huri_parse`, which only sets pointers into its argument.
- Listing of objects and tables, `fs_obj_sendfile`, and the whole-object GET loop, which reads as `ObjectReader.Reader.Read` does.
- `ObjectFile.Fits`: sizes for which the table length wraps 32 bits or the size 64 bits.
- ObjectWriter.FsObj.Write: is for totals up to one block beyond the checksum table; beyond it the code's loop does not end.
- ObjectReader.GetPart: not at offset = size, where the code hashes without a buffer.
- ObjectReader.ObjectCopy: says whether the copy was committed, not which error code is reported, since the code has already set Success when it starts reading.
- ObjectReader.Reader.Read: the object is not used further after a checksum failure, as in the program.
- ObjectStore.StepRefines: open and delete are functions on a volume value, since each is a straight sequence of system calls; one operation is one step.
- Requests.AtMostOnce: every request has a callback, and callbacks run at session failure send nothing.
- Timers.TimerList.Run: callbacks do not run the list again; the fired flag is stated for single steps only.
- WriteQueue.WriteState.RunCompl: callbacks queue buffers but do not write; a callback that writes could keep the loop going for ever.
- WriteQueue.WriteState.FreeAll: callbacks queue nothing during teardown.
- WriteQueue.WriteState.Writable: the writing flag and the event itself are not modelled.
- SelfCheck.AsideOnlyIfQuiet: one checker thread, as in the program; reading a file's sum is one step.
