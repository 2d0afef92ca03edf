# CHFS, a small file system, verified

CHFS keeps files on a simulated disk of 32768 blocks of 512 bytes. This project models its three layers that
hold state, and proves what they keep over every run.

* **Block and inode store** (`layout.dfy`, `bytes.dfy`, `block_layer.dfy`, `inode_manager.dfy`). `Disk`,
  `BlockManager` and `InodeManager` are classes over one array of byte blocks; inodes and indirect blocks are
  bytes on that disk. `store_spec.dfy` says what the store promises (a map from inode numbers to typed byte
  strings, with the space in use); `store_model.dfy` holds the ownership invariant. The code only asks whether a
  block is in use *by somebody*; the ghost map `owner`, from each used block to the one slot of the one file that
  holds it, is what makes that enough. `store_laws.dfy` draws the consequences, and `extent_runs.dfy` proves the
  refinement for every sequence of requests to the extent service (`extent.dfy`, runs in `runs.dfy`).
* **Namespace** (`chfs_client.dfy`). Directories are `inum/name/inum/name/...` in the bytes of files.
  `dir_codec.dfy` is the codec with its inverse laws, `client_spec.dfy` what each operation does branch by
  branch, `tree.dfy` the directory tree without bytes, `namespace.dfy` and `namespace_runs.dfy` the proof that
  every run of the client keeps one tree over the allocated inodes, on its own disk, `exhaustion.dfy` the run that
  uses the inodes up, `byte_range.dfy` the laws of `read`, `write` and `setattr`, `client_laws.dfy` what callers see:
  names, kinds of inodes, room, and `unlink` undoing `create`.
* **Bounded queue** (`fifo.dfy`, and by its calls alone in `fifo_history.dfy`). The monitor `fifo<T>` as interleaved critical sections of any number of threads,
  with `pthread_cond_signal` free to wake any non-empty set of waiters and with spurious wakeups.

`StoreSpec.Fits` is what the code needs from its callers and never checks: the file size stays within one indirect
block, and the disk has room. Memory that the code reads past the end of a caller's buffer, the content of a fresh
buffer, and the clock are arbitrary values. Long functions of the code are split into methods at their loops, and one
turn of a loop is sometimes a method of its own; the loops, branches and order of effects are the code's.

Where code and intention differ, the code is modelled and the exact boundary is proved:

* `remove_file` counts indirect entries with `strlen`, which is 0 for every indirect block that can occur. Its
  blocks come back exactly when the file has content and at most 100 blocks, or holds none (`RemoveReclaims`,
  `RemoveLeaks`). A file that was filled and then emptied holds one (`RemovalAfterRun`, `RemoveLeaksEmptied`).
* `setattr` has its two branches exchanged. It sets the size exactly when the file does not have to grow
  (`SetAttrSize`, `SetAttrDoesNotGrow`).
* When no inode is left, the create operations enter inode 0 in the directory and still report success. They keep
  the tree exactly when the parent is no directory, the name is bound, or an inode that the allocator can reach is
  free: one of 1 to 1023, or 1024 late in a lap (`MakeKeepsInv`). After 1023 creations none is (`InodesRunOut`).
* A `write` of no bytes past the end extends the file; at or before the end it changes nothing (`EmptyWrite`).
* A `write` to an inode that is not allocated reports all bytes as written and stores nothing (`WriteNowhere`).
* `alloc_inode` with a type whose low 16 bits are 0 hands out an inode that stays free (`TypeComesBack`).

## Model

| member | source | states |
|---|---|---|
| Layout.Figures | inode_manager.h:54-71 | The figures of the layout are those the macros compute, with the inode table and the data region where they put them. |
| Bytes.PutWordsAt | inode_manager.cc:138-144 | Words stored at an offset of a byte buffer are read back there, and all other words are unchanged. |
| Bytes.ByteOrder | inode_manager.cc:138-144 | The four bytes of a stored word stand least significant first. |
| Bytes.SmallWordStopsStrLen | inode_manager.cc:124 | `strlen(buf) / 4` is 0 for a buffer whose first little-endian word is below 65536. |
| BlockLayer.Disk.ReadBlock | inode_manager.cc:17-24 | A block in range is copied out; out of range the buffer is left alone. |
| BlockLayer.Disk.WriteBlock | inode_manager.cc:26-35 | Exactly the addressed block changes; out of range nothing does. |
| BlockLayer.BlockManager.AllocBlock | inode_manager.cc:48-65 | First fit: the lowest free data block becomes used and no other; 0 exactly when every data block is used. |
| BlockLayer.BlockManager.FreeBlock | inode_manager.cc:67-81 | Zeroes and releases the block; its precondition is the assertion in the code, so every caller proves that assertion. |
| BlockLayer.SomeBlockFree | inode_manager.cc:57-64 | As long as fewer blocks are used than there are data blocks, `alloc_block` finds one. |
| StoreModel.EncodedWords | inode_manager.h:73-80 | The bytes of an inode: 16-bit type, then from byte 4 on size, access, modification and change time and the 101 block numbers, in that order. |
| StoreModel.InodeRoundTrip | inode_manager.h:73-80 | The inode read from the bytes `put_inode` stored is the inode that was stored. |
| StoreModel.FinalShape | inode_manager.cc:324-390 | For every old size, new size and grow or shrink case across the indirect boundary: every block to free is held, and after freeing the file holds exactly ceil(s/512) data blocks, or block 0 iff it was held for s = 0, and an indirect block iff that exceeds 100. |
| StoreModel.OtherFileSame | inode_manager.cc:312-463 | An operation on one file leaves every other file's inode, block numbers and bytes alone, those behind its indirect block included. |
| StoreModel.Commit | inode_manager.cc:391-396 | Writing the inode back re-establishes the ownership invariant, and the files on disk are the old ones with just this one replaced or removed. |
| StoreModel.HoldsContent | inode_manager.cc:329-368 | When each block holds its part of the data, the file's bytes are the data, whatever stands after them in the last block. |
| StoreModel.CountMine | inode_manager.cc:438-445 | A file owns exactly as many blocks as it has slots that are not 0. |
| InodeLayer.InodeManager.constructor | inode_manager.cc:110-118 | A fresh disk holds one empty directory, inode 1, and no used block. |
| InodeLayer.InodeManager.GetInode | inode_manager.cc:211-229 | The inode of the table, or nothing for a number out of range or a type of 0. |
| InodeLayer.InodeManager.PutInode | inode_manager.cc:231-244 | Exactly one block of the table changes, and it decodes to the inode. |
| InodeLayer.InodeManager.AllocInode | inode_manager.cc:151-181 | Returns the first free inode in probe order, now an empty file of the type's low 16 bits (still free if those are 0) with its three times set to now, and moves the rotor there; 0 and no change if no probe finds one. Other inodes stay bit for bit. |
| InodeLayer.InodeManager.WriteFile | inode_manager.cc:311-398 | Keeps the ownership invariant and replaces the file's bytes by the first `size` bytes of the caller's memory, for arbitrary memory behind them; space in use changes by exactly the difference in blocks held; the leaked blocks are the same; the inode gets its three times and all other inodes stay as they are; unallocated inodes are ignored. |
| InodeLayer.InodeManager.WriteDirect | inode_manager.cc:326-342 | After the first loop the direct blocks hold their part of the data and the file holds max(old, written) blocks. |
| InodeLayer.InodeManager.WriteIndirect | inode_manager.cc:343-371 | After the second part all blocks hold their part of the data, the indirect block is on disk and names them. |
| InodeLayer.InodeManager.TrimBlocks | inode_manager.cc:372-390 | The freeing phases release exactly the blocks past the new end, never a block of the new content. |
| InodeLayer.InodeManager.FreeDirect | inode_manager.cc:372-383 | The loop frees and resets exactly the slots from the first unused one up to the old end or slot 100. |
| InodeLayer.InodeManager.FreeIndirectBlocks | inode_manager.cc:129-147 | Frees exactly the entries from `begin_block` to the old count, then drops or rewrites the indirect block; each freed entry is in use although the code does not check. |
| InodeLayer.InodeManager.ReadFile | inode_manager.cc:250-308 | Returns size and bytes exactly as last written; no file changes, and of the inode the access time alone; for an unallocated inode it leaves the caller's size alone, and sets 0 out of range. |
| InodeLayer.InodeManager.ReadDirect | inode_manager.cc:275-289 | The loop that may run on to slot 99 never copies past the buffer of `block_count` blocks. |
| InodeLayer.InodeManager.ReadIndirect | inode_manager.cc:290-304 | The rest of the content arrives from behind the indirect block, within the buffer. |
| InodeLayer.InodeManager.GetAttr | inode_manager.cc:400-419 | Each of the three time stamps under its own name, the type (sign-extended from 16 bits) and the size of an allocated inode; otherwise the caller's record is untouched. |
| InodeLayer.InodeManager.RemoveFile | inode_manager.cc:421-463 | The file goes, all others stay; the blocks given back and the blocks leaked are exactly those of the specification, and the set of leaked blocks only grows. |
| InodeLayer.InodeManager.RemoveBlocks | inode_manager.cc:435-459 | What stays in use is exactly block 0 of an empty file, or the data blocks behind an indirect block. |
| InodeLayer.InodeManager.RemoveIndirect | inode_manager.cc:446-459 | The loop over indirect entries frees nothing; only the indirect block itself is freed. |
| InodeLayer.InodeManager.GetIndirectBlocks | inode_manager.cc:121-127 | Returns the raw indirect block with `strlen / 4` as its count. |
| InodeLayer.InodeManager.FreeInode | inode_manager.cc:183-206 | Zeroes the inode's block if the inode is allocated, and nothing else. |
| InodeLayer.WriteReadAttr | inode_manager.cc:250-419 | End to end through the disk: after a write the attributes report the times it was given, each under its name; a read then changes the access time only. |
| StoreLaws.ProbeCoverage | inode_manager.cc:166-168 | For every rotor 0..1024 the probes of one call are exactly 1..1023, and 1024 iff the rotor is at least 1023; never 0. |
| StoreLaws.AllocComplete | inode_manager.cc:166-180 | The inode returned was free; 0 is returned iff all of 1..1023 are allocated, and 1024 too when it can be probed. |
| StoreLaws.FirstFit | inode_manager.cc:166-180 | Next fit: the inode returned is the first free one after the last allocated, up to 1023, then the first from 1 on; 1024 is looked at only when the rotor is at 1023 or 1024. |
| StoreLaws.TypeComesBack | inode_manager.h:74 | `getattr` reports the type as the signed 16-bit number it was cut to; the inode stays free iff that is 0; types below 32768 come back unchanged. |
| StoreLaws.FitsExactly | inode_manager.cc:312-398 | What a put needs: at most 228 blocks of 512 bytes, and once done no more blocks in use than there are. |
| StoreLaws.RemoveReclaims | inode_manager.cc:435-459 | Blocks freed are min(n, 100) data blocks plus the indirect block iff n > 100; nothing leaks iff the file fits the direct blocks and is not an empty file that holds block 0. |
| StoreLaws.PutHoldings | inode_manager.cc:324-396 | For every old and new content: ceil(s/512) data blocks for s > 0, block 0 kept iff held for s = 0, an indirect block iff more than 100 are needed; free blocks plus the file's blocks are conserved. |
| StoreLaws.RemoveLeaks | inode_manager.cc:446-458 | A concrete file of 51201 bytes whose removal loses a block. |
| StoreLaws.RemoveLeaksEmptied | inode_manager.cc:435-459 | A concrete file, written and emptied, that still holds a block and loses it on removal. |
| StoreLaws.SlotsDistinct | inode_manager.cc:330-360 | In every valid state no two slots of live files hold the same block, and every held block is a data block in use. |
| StoreLaws.UsedIsOwned | inode_manager.cc:40-45 | A block is in use iff it leaked or some file holds it, never both. |
| StoreLaws.OwnedCount | inode_manager.cc:324-396 | Each file owns exactly its data blocks and its indirect block. |
| StoreLaws.SpaceConserved | inode_manager.cc:48-81 | Blocks in use = blocks held by all live files + leaked blocks, at most 31732. |
| ExtentLayer.ExtentServer.Put | extent_server.cc:26-36 | Put stores the string under the masked inode number, whatever memory follows the string. |
| ExtentLayer.ExtentServer.Get | extent_server.cc:38-56 | Get returns the bytes of the file, and the empty string for an inode that is not allocated. |
| ExtentLayer.ExtentServer.Create | extent_server.cc:17-24 | Create allocates an empty file of the type, any 32-bit value, as the inode layer stores it; no block leaks. |
| ExtentLayer.ExtentServer.GetAttr | extent_server.cc:58-70 | Each time stamp under its own name, type and size; a record of zeros for an inode that is not allocated. |
| ExtentLayer.ExtentServer.Remove | extent_server.cc:72-80 | Remove deletes the file and nothing else; what leaked before stays leaked. |
| ExtentRuns.RunOn | inode_manager.cc:151-463 | Refinement over every run from every valid disk: replies and final disk are those of the map from inode numbers to typed bytes; each block that had leaked is still in use. |
| ExtentRuns.MaskExactly | extent_server.cc:26-80 | Numbers that agree in their lower 31 bits name the same file. |
| ExtentRuns.RotorAfterRun | inode_manager.cc:166-180 | Over every run the search for a free inode starts from the last number handed out. |
| ExtentRuns.Run | inode_manager.cc:151-463 | From the fresh disk the same, with the server returned: its disk is the picture of the map after the run. |
| ExtentRuns.Undisturbed | inode_manager.cc:312-463 | Through any run that neither puts nor removes a file, its type and bytes stay. |
| ExtentRuns.ReadsLastWrite | inode_manager.cc:250-398 | After any such run a get returns precisely the bytes last put. |
| ExtentRuns.HoldsOnceFilled | inode_manager.cc:324-396 | Through any run without its removal a file holds a block iff it held one before or some put of it was not empty. |
| ExtentRuns.RemovalAfterRun | inode_manager.cc:421-463 | A file created and served by any run gives all its blocks back on removal iff it is at most 51200 bytes long and, if empty, never had content. |
| ExtentRuns.AlwaysBalanced | inode_manager.cc:48-81 | Over every run, space in use = space held + space leaked, and the leak never shrinks. |
| DirCodec.NumberRoundTrip | chfs_client.cc:25-40 | `n2i(filename(n)) == n` for every 64-bit number. |
| DirCodec.NumeralExact | chfs_client.cc:25-40 | `filename(n2i(s)) == s` iff `s` is a plain decimal numeral below 2^64. |
| DirCodec.N2iReads | chfs_client.cc:25-32 | Every text as a number: blanks, a sign, digits up to the first other character; too large saturates, negative wraps. |
| DirCodec.ParseTexts | chfs_client.cc:338-363 | For any texts between the slashes, the entries are those texts in turn, read as number and name. |
| DirCodec.ParsedIsJoined | chfs_client.cc:338-363 | Every text that parses is made of such pairs. |
| DirCodec.ParsePrint | chfs_client.cc:338-363 | Parsing the printed form of any entry list with slash-free names returns the list. |
| DirCodec.ParseAppend | chfs_client.cc:223-225 | Appending a printed entry to bytes that parse appends that entry to the list. |
| DirCodec.PrintParse | chfs_client.cc:468-480 | Reprinting a parsed directory returns the same bytes iff every number in it is a plain numeral. |
| DirCodec.ParseAccepts | chfs_client.cc:338-364 | `readdir` accepts exactly the bytes that are empty, or end in a slash and have an even number of slashes. |
| ChfsLayer.ChfsClient.constructor | chfs_client.cc:18-23 | A new client sees the fresh store, its root emptied without effect. |
| ChfsLayer.ChfsClient.Readdir | chfs_client.cc:315-365 | IOERR iff the inode is no directory or its bytes do not parse; otherwise its entries, with no slash in any name whatever the bytes were; no file changes. |
| ChfsLayer.ChfsClient.ParseEntries | chfs_client.cc:338-364 | The position loop terminates on every byte string and computes the parse; names come out free of slashes. |
| ChfsLayer.ChfsClient.Lookup | chfs_client.cc:286-313 | The first entry with the name, none, or IOERR. |
| ChfsLayer.ChfsClient.Create | chfs_client.cc:190-230 | Outcome and new store of `create` in each of its branches. |
| ChfsLayer.ChfsClient.Mkdir | chfs_client.cc:232-284 | As `create`, for a directory; the two dot names are refused. |
| ChfsLayer.ChfsClient.CreateSymbolicLink | chfs_client.cc:488-528 | As `create`, for a link that holds the path. |
| ChfsLayer.ChfsClient.ParseSymbolicLink | chfs_client.cc:530-547 | The content of a symbolic link; IOERR for anything else. |
| ChfsLayer.ChfsClient.Unlink | chfs_client.cc:429-486 | Status and new store of `unlink` in each of its branches. |
| ChfsLayer.ChfsClient.Reprint | chfs_client.cc:468-480 | The loop prints the entries without the name, in order. |
| ChfsLayer.ChfsClient.Read | chfs_client.cc:367-394 | The byte range as the code computes it, and no file changes. |
| ChfsLayer.ChfsClient.Write | chfs_client.cc:396-427 | The store after the overlay is put back; all bytes count as written. |
| ChfsLayer.ChfsClient.SetAttr | chfs_client.cc:148-175 | The store after the code's own truncation. |
| Tree.WithoutAt | chfs_client.cc:469-480 | Among distinct names, erasing a name drops exactly its entry and keeps the order of the rest. |
| Tree.WithoutUnbinds | chfs_client.cc:469-480 | Erasing a name from an entry list removes exactly its binding. |
| Tree.AddLeafInv | chfs_client.cc:212-229 | A fresh inode entered under an unbound name keeps the tree: unique names, live targets, one name per inode, all reachable from the root. |
| Tree.RemoveLeafInv | chfs_client.cc:458-484 | Removing a file together with its only entry keeps the tree. |
| Tree.EveryNodeNamed | chfs_client.cc:190-528 | In such a tree every inode but the root stands in some directory. |
| Namespace.InitialInv | chfs_client.cc:18-23 | The fresh store satisfies the invariant of the file system. |
| Namespace.LookupAgrees | chfs_client.cc:286-313 | `lookup` is the finite map of a directory's bindings. |
| Namespace.MakeBinds | chfs_client.cc:190-284 | EXIST iff the name is bound; otherwise it is bound to a fresh inode with the right type and content, the entry comes last, and every other file and binding is unchanged. With no inode left it is bound to 0 and no file appears. |
| Namespace.MakeTree | chfs_client.cc:212-229 | A successful creation is, on the tree, the addition of one leaf, and directories stay canonical bytes. |
| Namespace.MakeKeepsInv | chfs_client.cc:190-284 | A creation with room keeps the invariant of the file system iff the parent is no directory, the name is bound, or a reachable inode is free: checkable before the call. |
| Namespace.MakeBreaks | chfs_client.cc:212-229 | A creation that finds no inode breaks the tree: its entry leads to inode 0, which is no node. |
| Namespace.LinkRoundTrip | chfs_client.cc:488-547 | Reading a new symbolic link returns the path it was created with, iff an inode was left for it. |
| Namespace.UnlinkUnbinds | chfs_client.cc:429-486 | NOENT iff unbound; success iff bound to a regular file (type 2, `KindsApart`), and then exactly that binding and that inode go, with the order of the rest kept. |
| Namespace.UnlinkTree | chfs_client.cc:458-484 | A successful unlink is, on the tree, the removal of one leaf. |
| Namespace.UnlinkKeepsInv | chfs_client.cc:429-486 | Unlinking always has the space it needs and keeps the invariant. |
| Namespace.UnlinkReclaims | README.md:326 | An unlinked file gives all its blocks back iff it fits the direct blocks and is not an empty file that still holds one. |
| NamespaceRuns.RunOn | chfs_client.cc:148-547 | Every run of the client over the block store, from every valid disk, gives the results and the final disk of the specification on the map of files, and keeps the invariant of the file system if its calls are permitted. |
| NamespaceRuns.Run | chfs_client.cc:148-547 | From the fresh disk the same, with the client returned: its own disk is that of the specification, and holds one tree if the run is permitted. |
| NamespaceRuns.RunKeepsInv | chfs_client.cc:190-528 | Every run of permitted calls keeps the invariant of the file system. |
| NamespaceRuns.TreeAfterRun | chfs_client.cc:190-528 | From the fresh disk: every directory parses, names are unique in it, entries lead to live inodes other than the root, each other inode has exactly one name, and all are reachable from the root. |
| NamespaceRuns.RunKeepsFile | chfs_client.cc:148-528 | Through any permitted run that neither writes nor unlinks a file, its type and bytes stay, whatever is created and removed around it. |
| NamespaceRuns.ReadBack | chfs_client.cc:367-427 | After a write and any such run, every range read back shows the data, the old bytes and zeros in the hole, with the right length. |
| ClientLaws.CreateExactly | chfs_client.cc:190-230 | `create` enters an empty inode of type 2, as into a finite map: EXIST, IOERR, the new entry, and nothing else changes. |
| ClientLaws.SymlinkExactly | chfs_client.cc:488-528 | `create_symbolic_link` likewise enters an inode of type 3 that holds the path. |
| ClientLaws.MkdirExactly | chfs_client.cc:232-284 | `mkdir` answers IOERR iff the parent is no directory or the name is "." or ".."; under every other name it enters an empty inode of type 1. |
| ClientLaws.MadeThenFound | chfs_client.cc:190-313 | After a creation the name leads to the new inode. |
| ClientLaws.KindsApart | chfs_client.cc:429-547 | `unlink` takes a file just created, and refuses a link and a directory, which stay as they are; only the link can be read as one. The types are 2, 3 and 1. |
| ClientLaws.CreateThenUnlink | chfs_client.cc:190-486 | Unlinking what was just created restores every file, down to the bytes of the directory. |
| ClientLaws.FeasibleExactly | chfs_client.cc:148-528 | A call has the room it needs iff the files after it fit 31732 blocks and each is at most 116736 bytes long. |
| ClientLaws.WriteNowhere | chfs_client.cc:396-427 | Writing to an inode that is not allocated reports success and changes nothing. |
| Exhaustion.StageRun | chfs_client.cc:190-230 | While inodes last, every run of creations named by successive numbers is permitted and takes the inodes in order. |
| Exhaustion.InodesRunOut | inode_manager.cc:166-180 | A permitted run of 1023 creations ends in a sound tree with no inode left; one more creation is feasible, answers success with inode 0, binds the name to it and breaks the tree. |
| ByteRange.WrittenBytes | chfs_client.cc:416-421 | After a write each byte is the data, the old byte or a zero in the hole, and the length is max(old, off + size). |
| ByteRange.ReadExact | chfs_client.cc:385-392 | A read returns exactly the part of the range below the end, also where `off + size` wraps around in 64 bits. |
| ByteRange.WriteThenRead | chfs_client.cc:367-427 | End to end through the store: any range read after a write, byte for byte and with its length, and no other file changed. |
| ByteRange.EmptyWrite | chfs_client.cc:416-421 | A write of no bytes to a file leaves the whole store as it is iff it starts at or before the end; past the end it pads with zeros. |
| ByteRange.SetAttrSize | chfs_client.cc:162-173 | Below the old size the content is cut to that prefix, above it nothing changes: the file gets the size iff it does not have to grow. |
| ByteRange.SetAttrDoesNotGrow | chfs_client.cc:165-166 | A concrete file in a sound store, with room, that keeps its size when a larger one is set. |
| FifoModel.NextKeepsInv | rpc/fifo.h:56-92 | Every critical section and every spurious wakeup keeps: order, capacity, and no lost wakeup on either condition variable. |
| FifoModel.EveryRun | rpc/fifo.h:56-92 | In every interleaving the values popped are a prefix of those pushed, each once; the limit holds; whoever waits unsignalled beside n items (or n free places) has n woken peers. |
| FifoModel.QuietIsJustified | rpc/fifo.h:65-81 | When nobody is left to run, consumers sleep only at an empty queue and producers only at a full one, never both. |
| FifoModel.NonBlockingEnq | rpc/fifo.h:61-69 | A non-blocking `enq` fails, changing nothing, iff the queue is full. |
| FifoModel.ResumesEnd | rpc/fifo.h:60-90 | Without new calls and spurious wakeups every schedule of the woken threads ends. |
| FifoModel.EveryScheduleSettles | rpc/fifo.h:56-92 | Every schedule of woken threads is bounded, and none of them can go on iff none is left; then consumers sleep only at an empty queue and producers only at a full one. |
| FifoModel.Settles | rpc/fifo.h:56-92 | From every reachable state the woken threads can run until no thread sleeps beside an item or beside space. |
| FifoHistory.StepArg | rpc/fifo.h:57-67 | A producer that waits keeps the argument of the call it is in. |
| FifoHistory.WhoWaits | rpc/fifo.h:56-92 | A caller of `enq` stays iff it may block and the queue is full, one of `deq` iff the queue is empty; no other thread enters or leaves. |
| FifoHistory.EveryRunByCalls | rpc/fifo.h:56-92 | In every interleaving: values pushed = values popped + values left, in order; each push is the argument of the last call of its thread, each pop the front found; and each waiting producer holds the argument of its own last call. |
| FifoHistory.NothingLost | rpc/fifo.h:56-92 | In every interleaving and for every value: the calls with it that were not refused are as many as its pops, its places in the queue and the producers waiting with it. |
| FifoHistory.FreeSchedules | rpc/fifo.h:56-92 | Any thread outside may call, any woken thread may go on, and a signal may wake any one waiting thread or all. |
| FifoObject.Fifo.EnqTurn | rpc/fifo.h:59-71 | One turn of the loop of `enq` on the object's fields is the model's critical section, with its verdict. |
| FifoObject.Fifo.DeqTurn | rpc/fifo.h:77-91 | One turn of the loop of `deq` is the model's critical section and returns the front. |
| FifoObject.Fifo.Enq | rpc/fifo.h:56-72 | A call of `enq` is one step of the model and keeps its invariant; it fails or waits iff the queue is full. |
| FifoObject.Fifo.EnqAgain | rpc/fifo.h:60-71 | A woken producer's turn is one step of the model: it waits again iff the queue is full. |
| FifoObject.Fifo.Deq | rpc/fifo.h:74-92 | A call of `deq` is one step of the model: it waits iff the queue is empty, and otherwise returns the oldest value. |
| FifoObject.Fifo.DeqAgain | rpc/fifo.h:79-90 | The same for a woken consumer. |
| FifoObject.Fifo.Size | rpc/fifo.h:49-54 | `size` tells whether the queue is non-empty, not its length. |

## Left out

- WriteFile: requires `Fits`. On a full disk `alloc_block` returns 0 and the code goes on with block 0; a size above 228 blocks is stored although the bytes are not. Neither case is modelled.
- Put: requires `Fits` for the same reason.
- WriteReadAttr: requires `Fits`, as `WriteFile`.
- Create: of the client, requires `MakeFits`, room for the longer directory; the extent service's `Create` requires nothing.
- Mkdir: requires `MakeFits`, as `Create`.
- CreateSymbolicLink: requires `MakeFits`, here also room for the path.
- Write: requires `WriteFits`, room for the longer file.
- SetAttr: requires `SetAttrFits`, room for the content after the change.
- Unlink: requires `UnlinkFits`; in every state that satisfies the invariant this holds by itself (`UnlinkKeepsInv`).
- AllocInode: the inode is written just after the probe loop, not in its last turn.
- GetAttr: reports the time stamps of the inode; which times `time` returns is not said, they are arbitrary.
- `isdir`, `issymlink`, `getfile` and `getdir` of the client: they copy parts of what `getattr` reports.
- N2i: on an empty or blank text the code returns an uninitialised variable, here 0. No reachable directory contains such a text.
- Read: takes offsets from 0 on, as the kernel passes them; the same holds for `Write`.
- The initial value of `_last_alloced`: it is read before it is set when the root is allocated, and is 0 here.
- Entries with value 0 that reading `using_blocks` inserts: absent and 0 mean the same to every reader of the map.
- The result of `getattr` that `read` and `write` of the client fetch and do not use, and the NUL that ends a name.
- The FUSE glue, RPC, marshalling and thread pool, heap leaks, `printf` and `exit`.
- Fairness of the mutex: the queue results hold for every schedule, and say which schedules end.
