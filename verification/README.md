# A verified model of the yfs file system

The repository is a small Unix-like file system. A simulated disk of 32768 blocks of 512 bytes
carries a free-block bitmap, a table of 1024 inodes and data blocks; an inode layer stores whole
files through 100 direct pointers and one indirect block; an extent server hides it behind 64-bit
ids; a client builds directories, as text, and byte-range files on top. Beside it stands the
bounded blocking queue of the RPC library. This project models all four and proves, from the bits
up, that the disk behaves as a plain tree of directories, files and links.

How the parts fit together:

| file | models | main results |
|---|---|---|
| `Bytes.dfy`, `Geometry.dfy`, `Bitmap.dfy` | bytes, words, macros, the bitmap | a bit's address is taken apart as it was put together; one bit changes at a time |
| `BlockManager.dfy` | classes `disk` and `block_manager` | the lowest free block is found; freeing undoes allocating |
| `Layout.dfy`, `Ownership.dfy`, `Transfer.dfy` | inodes, indirect blocks, who owns which block | the bitmap is the disjoint union of what live inodes own, and stays so |
| `InodeManager.dfy` | class `inode_manager` | the disk refines a map from inode numbers to files |
| `ExtentServer.dfy`, `ExtentRuns.dfy` | class `extent_server` | any run answers as that map does; types, data and times over runs |
| `DirText.dfy` | printing and parsing of directories | round trip, and when it fails; directories as finite maps |
| `ByteRange.dfy` | write, setattr and read on bytes | the last edit of a byte wins; cut bytes never come back |
| `FileSystem.dfy` | the abstract tree | what keeps it a tree; one path to each node |
| `YfsClient.dfy`, `Runs.dfy` | class `yfs_client` | any run on the disk answers as the tree does; the bytes and lengths of files over runs |
| `Namespace.dfy` | directories as finite maps | any run names, finds and forgets as nested finite maps do |
| `Replies.dfy` | what the client is told | the reply of every operation after any run, from the run alone |
| `FullDisk.dfy` | a disk filled to the last block | what alloc_block returns then |
| `Fifo.dfy` | class `fifo` | first in first out, every answer of every run, no lost wakeup, no deadlock |

Modelling decisions:

- The disk is an array of blocks updated in place. `read_block` and `write_block` copy whole
  blocks, so a block is a value of 512 bytes. Structures and pointer arrays are really encoded:
  an inode is 106 little-endian words over the front of its block, an indirect block 128 words.
- Memory the program reads without having written it (a struct from `malloc`, struct padding, an
  unused part of the pointer buffer, the bytes after the caller's buffer in the last partial
  block, a variable `lookup` may leave unset) has arbitrary contents in the model, and every
  result holds whatever it is.
- `time(NULL)` is a parameter of the inode and extent layers, and an arbitrary value in the client.
- The counter of `alloc_inode`, static in the code, is a field that starts at 0.
- What a run is answered is stated twice: once by a reference state (the tree, the map, the queue)
  that the code is proved to follow, and once by laws over the calls alone, which read no state:
  the last write to a byte, the last size set, the time of the last get, the items accepted and
  handed out. `Replies.dfy`, the end of `ExtentRuns.dfy` and the end of `Fifo.dfy` hold them.
- The status `OK` that the extent server always returns is not modelled, nor are the branches that
  test it.
- `write_file` and `remove_file` repeat the same freeing loops, and `create` and `mkdir` the same
  text; the model has each once (`FreeBlocks`, `CreateNode`).
- The invariant `Layout.Sound` is part of `Valid()` of the inode manager and so holds in every
  state its operations reach. `Ownership.ReplacedIsSound` carries the proof: between freeing the
  old blocks and writing the inode the invariant is broken, and the lemma rebuilds it from what
  the two halves did.

Where the code does not do what it should for every input, the model keeps the code and says
exactly when it does, with an input at which it does not: `unlink` leaves orphans exactly when given
a directory with entries (`fuse.cc` says it must refuse directories; `UnlinkCanOrphan`); `symlink`
breaks the tree exactly when the name is taken or the parent is no directory
(`SymlinkCanDuplicate`); `alloc_block` runs past the end of the disk exactly when no data block is
free (`AllocOnFullDisk` fills one); a directory's text fails to read back exactly when a name is empty
or contains a slash (`ParseCanDiffer`); `write` reports the size it was given exactly when there is no
hole; `alloc_inode` makes no file exactly when the number is past the inode table or the type is 0.

## Model

| member | source | states |
|---|---|---|
| Bytes.PutBitAt | inode_manager.cc:31-36 | setting or clearing one bit of a byte decides that bit and none of the other seven |
| Bytes.ClearUndoesSet | inode_manager.cc:33-54 | the clear mask of free_block undoes the set mask of alloc_block on the whole byte |
| Bytes.BitWeights | inode_manager.cc:31-34 | bit k is the one of weight 2 to the k |
| Bytes.WordsRoundTrip | inode_manager.cc:231-254 | words written through a char pointer read back through a word pointer |
| Bytes.LowByteFirst | inode_manager.cc:231-254 | the low byte of a word comes first |
| Geometry.RegionsAreSeparate | inode_manager.h:54-68 | bitmap blocks 2..9, inode blocks 11..1034 and ids from 8192 never meet; different inodes have different blocks; inode number 8181 is the first whose block is a data block |
| Bitmap.BitAddress | inode_manager.cc:27-53 | the block, byte and bit that free_block computes from an id are those from which alloc_block formed it |
| Bitmap.BitPlace | inode_manager.cc:49-53 | the bit of an id is bit id%8 of byte id%4096/8 of disk block id/4096 |
| Bitmap.MarkBitAt | inode_manager.cc:44-58 | marking an id changes the bit of that id and of no other id anywhere |
| Bitmap.FreeUndoesAlloc | inode_manager.cc:20-58 | freeing a block just allocated restores every byte of the disk |
| Bitmap.LowestClearIsOnDisk | inode_manager.cc:27-36 | while fewer than 24576 blocks are taken the id found lies on the disk and was free |
| Ownership.AllocIsOnDiskIff | inode_manager.cc:27-41 | alloc_block finds a block of the disk if and only if fewer than 24576 are taken; else it gives the first id past the end |
| Ownership.SoundAllocIsOnDiskIff | inode_manager.cc:27-41 | on a sound disk that is when the files' sizes leave a data block free |
| FullDisk.AllocOnFullDisk | inode_manager.cc:20-41 | 108 files fill a fresh disk exactly; the next block handed out is 32768, past its end |
| BlockLayer.BlockManager.AllocBlock | inode_manager.cc:19-42 | takes the lowest clear id over all bitmap blocks and sets that bit only, or returns -1 with everything set and nothing changed |
| BlockLayer.BlockManager.FreeBlock | inode_manager.cc:44-58 | clears the bit of the id and changes nothing else on the disk |
| Layout.InodeRoundTrip | inode_manager.cc:164-176 | an inode assigned over its block is read back field by field, whatever the padding |
| Layout.InodeFieldPlaces | inode_manager.h:70-77 | the place of every field of the struct in its block |
| Layout.OwnedCountIs | inode_manager.cc:239-256 | one block for every 512 bytes begun and one more from the 101st on; 229 at most |
| Layout.EncodeKeepsTail | inode_manager.cc:172-175 | writing an inode keeps the rest of its block |
| Layout.IndirectRoundTrip | inode_manager.cc:248-254 | the pointer buffer written as the indirect block is read back unchanged |
| Ownership.InodeFrame | inode_manager.cc:138-206 | what an inode owns and holds depends only on its inode block and its own blocks |
| Ownership.OwnedOnce | inode_manager.cc:215-264 | a block of a live inode is marked, in the data region, and in no other inode |
| Ownership.ReplacedIsSound | inode_manager.cc:215-264 | after any replacement of one inode and its blocks the bitmap is again the disjoint union of owned blocks, and the map changed at that inode only |
| Ownership.UsedCount | inode_manager.cc:20-58 | on a sound disk the number of set bits is the sum over live files of ceil(size/512), plus one for each beyond 100 blocks |
| Ownership.SoundFits | inode_manager.cc:20-58 | files of a sound disk never need more than the 24576 data blocks |
| Transfer.HoldsGather | inode_manager.cc:182-206 | blocks that hold a buffer piece by piece give back its bytes and none of the memory after it |
| Transfer.RewriteReplaces | inode_manager.cc:215-264 | freeing all old blocks, storing in new ones that may be the old ones, and writing the inode amounts to one replacement |
| Transfer.RoomAfterFree | inode_manager.cc:224-247 | if the new contents fit beside the other files, allocation cannot fail after the old blocks are freed |
| Transfer.GapIsHarmless | inode_manager.cc:164-176 | writing a block between the inode table and the data changes no file and keeps the disk sound |
| InodeLayer.InodeManager.constructor | inode_manager.cc:81-88 | the fresh disk is sound and holds one empty directory, inode 1 |
| InodeLayer.InodeManager.GetInode | inode_manager.cc:135-162 | the inode of a live number; nothing for a dead or out-of-range one |
| InodeLayer.InodeManager.PutInode | inode_manager.cc:164-176 | the inode reads back; no other block and no byte after it changes |
| InodeLayer.InodeManager.AllocInode | inode_manager.cc:90-109 | a number never handed out before becomes an empty file with all three times set, if it is in the inode table and the type is not 0; otherwise the number is spent and no file changes; only its inode block is written |
| InodeLayer.InodeManager.FreeInode | inode_manager.cc:111-133 | a live inode becomes all zero; a dead or out-of-range number changes nothing |
| InodeLayer.InodeManager.FreeBlocks | inode_manager.cc:224-237 | the freeing loops clear exactly the owned blocks, direct, indirect and the indirect block itself |
| InodeLayer.InodeManager.StoreBlocks | inode_manager.cc:239-256 | the writing loops take exactly the needed free blocks, and those hold the buffer across the indirect boundary |
| InodeLayer.InodeManager.ReadFile | inode_manager.cc:180-212 | returns the file's bytes; the map is unchanged and only the access time of this inode differs |
| InodeLayer.InodeManager.WriteFile | inode_manager.cc:214-264 | the map changes at this file only, to exactly the buffer; sizes, times, written blocks and the count of set bits are as stated; the disk stays sound |
| InodeLayer.InodeManager.RemoveFile | inode_manager.cc:287-318 | the file leaves the map, exactly its blocks are returned, nothing else changes |
| InodeLayer.InodeManager.GetAttr | inode_manager.cc:266-285 | kind and size agree with the map; nothing for a number not in it |
| InodeLayer.TypeNumbers | extent_protocol.h:20-23 | the numbers of the types |
| InodeLayer.WriteThenRead | inode_manager.cc:182-264 | reading back gives what was written, and any other file is untouched |
| ExtentLayer.ExtentServer.Create | extent_server.cc:17-24 | a fresh id, bound to an empty file with all three times set if it is in the inode table and the type is not 0, and to nothing otherwise |
| ExtentLayer.ExtentServer.Put | extent_server.cc:26-35 | the masked id is bound to the buffer, everything else stays |
| ExtentLayer.ExtentServer.Get | extent_server.cc:37-55 | the bytes last put; nothing but the access time changes |
| ExtentLayer.ExtentServer.GetAttr | extent_server.cc:57-69 | attributes of a live id, all zero otherwise |
| ExtentLayer.ExtentServer.Remove | extent_server.cc:71-79 | the masked id is gone and no other |
| ExtentLayer.MaskedKeepsLowBits | extent_server.cc:28-28 | masking keeps the low 31 bits of an id |
| ExtentRuns.Run | extent_server.cc:17-79 | any run on the disk gives the replies and the final files and times of the plain map |
| ExtentRuns.LastPutWins | extent_server.cc:17-79 | after any run every file, old or made on the way, has its first type, the data last put, the time of its last get as access time and that of its last put as both others; if there was none, what it began with, which for a new one is no data and the time of its create |
| ExtentRuns.LiveIff | extent_server.cc:17-79 | an id is live after a run exactly when it was, or was handed out for a file, and was not removed |
| ExtentRuns.CreateReply | extent_server.cc:17-24 | create answers ids in sequence |
| ExtentRuns.GetReply | extent_server.cc:37-55 | get answers what was last put |
| ExtentRuns.GetAttrReply | inode_manager.cc:266-285 | getattr answers the first type, the time of the last get, twice that of the last put, and the length last put |
| ExtentRuns.OtherReplies | extent_server.cc:26-79 | getattr answers zeros for a dead id |
| ExtentRuns.DeadStaysDead | inode_manager.cc:100-108 | an id once handed out and removed is never in use again |
| DirText.ParseBound | yfs_client.cc:299-321 | any bytes at all parse to at most (length+2)/3 entries |
| DirText.ParsePrint | yfs_client.cc:299-321 | a printed list of entries with proper names parses to the same list |
| DirText.ParsePrintIff | yfs_client.cc:299-321 | and it does so only if no name is empty or has a slash |
| DirText.ParseCanDiffer | yfs_client.cc:299-321 | an entry a/b reads back as two entries, one with an empty name as none |
| DirText.FormatInBytes | yfs_client.cc:203-321 | the format in plain bytes: slash is 47, digits decimal from 48 |
| DirText.ParseAppend | yfs_client.cc:203-206 | appending one printed entry to the text appends one entry |
| DirText.RemovePrintsLess | yfs_client.cc:412-425 | a directory printed without an entry is no longer than before |
| DirText.LookupIsBinding | yfs_client.cc:267-275 | searching the list answers as the finite map from names to numbers |
| DirText.AppendBinds | yfs_client.cc:196-206 | appending an entry with a free name adds one binding |
| DirText.RemoveUnbinds | yfs_client.cc:412-419 | erasing an entry removes that binding and reveals no other |
| DirText.RemoveIsFirst | yfs_client.cc:414-419 | of several entries of one name the first is erased |
| ByteRange.LastEditWins | yfs_client.cc:140-389 | after any writes and truncations each byte is what the last edit that wrote or cut there left |
| ByteRange.LastEditSetsLength | yfs_client.cc:140-389 | after any writes and truncations the length is the one the edits alone give |
| ByteRange.ResizeIsExact | yfs_client.cc:163-167 | setattr gives exactly the size asked for: a cut, or the old bytes and zeros |
| ByteRange.TruncatedBytesStayZero | yfs_client.cc:140-174 | what a truncation cut off reads as zero until written again, however the file is extended |
| ByteRange.ReadIsByteAt | yfs_client.cc:344-344 | reading a range gives the bytes at its positions |
| ByteRange.ReadOwnWrite | yfs_client.cc:326-389 | reading the range just written gives the data |
| ByteRange.DisjointWritesCommute | yfs_client.cc:348-389 | writes to disjoint ranges commute, holes included |
| ByteRange.RewriteKeepsLast | yfs_client.cc:348-389 | rewriting a range forgets the earlier data |
| FileSystem.AddKeepsTree | yfs_client.cc:176-463 | adding a node keeps the tree if and only if its parent is a directory and its name is free: what create and mkdir look up and symlink does not |
| FileSystem.SymlinkCanDuplicate | yfs_client.cc:430-463 | a concrete tree that symlink breaks: two entries of one name, and lookup still finds the first |
| FileSystem.RemoveKeepsTree | yfs_client.cc:391-428 | unlink never removes the parent it reads again, and keeps the tree if and only if the victim is no directory with entries |
| FileSystem.UnlinkCanOrphan | fuse.cc:408-413 | a concrete tree that unlink breaks |
| FileSystem.SetDataKeepsTree | yfs_client.cc:140-389 | changing a file's bytes keeps the tree |
| FileSystem.EveryNodeHasOnePath | yfs_client.cc:176-428 | in a tree every live node is reached from the root by exactly one path of names |
| FileSystem.DemandMonotone | inode_manager.cc:239-256 | a node with more bytes never needs fewer blocks |
| ClientLayer.YfsClient.constructor | yfs_client.cc:16-20 | the file system starts as an empty root |
| ClientLayer.YfsClient.TreeIsDetermined | yfs_client.cc:299-321 | the disk stands for one tree only |
| ClientLayer.YfsClient.ParseEntries | yfs_client.cc:299-321 | the loop of readdir ends on every byte string with the parse of it |
| ClientLayer.YfsClient.ReadDir | yfs_client.cc:280-324 | the entries of a directory in order, IOERR for any other id, alive or not |
| ClientLayer.YfsClient.Lookup | yfs_client.cc:252-278 | finds exactly the bound names; leaves the caller's variables alone when the parent is no directory |
| ClientLayer.YfsClient.Create | yfs_client.cc:176-212 | in a directory EXIST exactly when the name is bound, else one new empty file and one new entry; under any other live parent, where the flag is never set, either EXIST or a new file whose name is appended to the parent's bytes |
| ClientLayer.YfsClient.Mkdir | yfs_client.cc:214-250 | the same with a directory |
| ClientLayer.YfsClient.Symlink | yfs_client.cc:430-463 | always adds a link holding the target, whether or not the name is bound and whatever the parent is |
| ClientLayer.YfsClient.Unlink | yfs_client.cc:391-428 | NOENT exactly when unbound, else the node and its entry go and nothing else |
| ClientLayer.YfsClient.Read | yfs_client.cc:326-346 | the bytes of a range cut at the end of the file; IOERR for anything but a file |
| ClientLayer.YfsClient.ReadLink | yfs_client.cc:465-478 | the target of a link; IOERR for anything else |
| ClientLayer.YfsClient.Write | yfs_client.cc:348-389 | on any live id the range holds the data, a hole is zero, other bytes stay; on a file or link the tree changes there only; the count equals the size given if and only if there is no hole |
| ClientLayer.YfsClient.SetAttr | yfs_client.cc:140-174 | the bytes of any live id are cut, or extended with zeros; a dead id given size 0 is left alone |
| Runs.AfterIsTree | yfs_client.cc:140-463 | every allowed operation keeps the tree |
| Runs.RunKeepsTree | yfs_client.cc:140-463 | so does every run, and a number that died stays dead |
| Runs.RunEdits | yfs_client.cc:140-463 | over any run a file's bytes are those it was born with under its own writes and truncations, in order |
| Runs.BornByOneOperation | yfs_client.cc:176-463 | a file or link made during a run was made by the one operation answered with its number, a file by create, empty, a link by symlink, holding its target |
| Runs.RunLength | yfs_client.cc:140-389 | over any run a file's length is the one its own writes and truncations give |
| Runs.RunKeepsKind | yfs_client.cc:176-463 | a node that lives through a run ends it as file, link or directory as it began |
| Runs.RunReadsLastWrite | yfs_client.cc:140-389 | over any run of any operations each byte of each file at its end, also of those made on the way, is the one last written there, or zero if it was cut since |
| Replies.ReadReply | yfs_client.cc:326-346 | after any run read answers as many bytes as asked for and there are by the edits, each the one last written there; IOERR for what is no file |
| Replies.ReadLinkReply | yfs_client.cc:465-478 | after any run readlink answers the whole target; IOERR for what is no link |
| Replies.WriteReply | yfs_client.cc:375-379 | after any run write answers the bytes given and those of the hole past the length the edits give |
| Replies.SetAttrReply | yfs_client.cc:140-174 | setattr answers OK |
| Replies.ReadDirReply | yfs_client.cc:280-324 | after any run readdir answers every binding of the directory's finite map once, in the order of numbers; IOERR for what is no directory |
| Replies.ListingIsUnique | yfs_client.cc:299-321 | which determines the whole reply |
| Replies.RunKeepsOrder | yfs_client.cc:196-425 | in every run directories list their entries in the order of making |
| Replies.NamingReply | yfs_client.cc:176-463 | create, mkdir, symlink, unlink and lookup answer from the maps |
| Namespace.StepRefinesNames | yfs_client.cc:176-463 | every allowed operation does to the directories, and answers from them, what finite maps from names to numbers would |
| Namespace.RunRefinesNames | yfs_client.cc:176-463 | after any run the directories are the maps the run makes |
| Namespace.AnswersFromNames | yfs_client.cc:176-463 | and every EXIST, NOENT and number answered on the way is read off those maps |
| Runs.Perform | yfs_client.cc:140-478 | one operation on the disk gives the answer and the next state of the abstract tree |
| Runs.Run | yfs_client.cc:140-478 | any permitted run on the disk gives the answers of the abstract tree and ends standing for its final state |
| Runs.UnlinkUndoesCreate | yfs_client.cc:176-428 | removing the child just added restores every node and the order of entries |
| Runs.CreateThenUnlink | yfs_client.cc:176-428 | create then unlink restores every stored byte, the parent's text included, and the number of free blocks |
| Fifo.Queue.Enq | rpc/fifo.h:56-72 | one turn under the mutex puts the item at the back and signals, waits, or gives up, and keeps the invariant |
| Fifo.Queue.Deq | rpc/fifo.h:74-92 | one turn under the mutex takes the item at the front and signals, or waits, and keeps the invariant |
| Fifo.Queue.WakeSpuriously | rpc/fifo.h:66-81 | threads may come back from a wait unsignalled, and the invariant holds |
| Fifo.FirstInFirstOut | rpc/fifo.h:56-92 | in every run the items accepted are the items handed out, in that order, followed by the queue |
| Fifo.AnswersFollow | rpc/fifo.h:56-92 | every answer of every run follows from the calls and answers before it: enq succeeds exactly while the limit leaves room, deq hands out the next accepted item or waits |
| Fifo.ThreadsAreWhereTheyWereLeft | rpc/fifo.h:60-88 | a thread waits, an enq with its own item, exactly from being answered Blocked until an event unblocks it |
| Fifo.EnqKeepsSound | rpc/fifo.h:56-72 | limit and no-lost-wakeup survive enq by a caller that barges in or by a woken thread |
| Fifo.DeqKeepsSound | rpc/fifo.h:74-92 | the same for deq |
| Fifo.SpuriousKeepsSound | rpc/fifo.h:66-81 | the same for threads unblocked without a signal |
| Fifo.NoLostWakeup | rpc/fifo.h:56-92 | in every reachable state, for any threads and limit, the limit is kept and a thread waits for an item or a place only if enough woken threads are on their way |
| Fifo.NoDeadlock | rpc/fifo.h:56-92 | a producer and a consumer never both wait with no thread woken |

## Left out

- BlockLayer.BlockManager.AllocBlock: what the callers then do with -1 or an id past the end is not modelled, because nothing checks it; writing requires that the result fits.
- InodeLayer.InodeManager.WriteFile: requires at most 228 blocks of data, the most the pointers can hold; the code does not check and would write past its buffers.
- InodeLayer.InodeManager.AllocInode: requires a number up to 8180; number 8181 and later ones are written over data blocks, which nothing checks. The type is the unsigned 16-bit value stored, so truncation to it and sign extension from 0x8000 up are not modelled.
- InodeLayer.InodeManager.ReadFile: reading, writing or removing a dead inode dereferences a null pointer in the code; a live one is required. The out-buffer is built by appending blocks, its unused tail is not represented.
- ClientLayer.YfsClient.Create: requires a live parent, since a dead one is dereferenced as a null pointer, and a number within the inode table, since a name without a file would follow. The same holds for mkdir and symlink.
- ClientLayer.YfsClient.Unlink: requires a directory, since otherwise the number to remove is a variable that was never set, and that a bound name leads to a live node other than the parent, as it does in every tree.
- ClientLayer.YfsClient.Read: requires the offset not to exceed the length, where the code throws.
- ClientLayer.YfsClient.Write: for a directory it states the new bytes but not a new tree, since they need not be a directory's text any more; the runs give data operations no directory.
- DirText.AtoI: is not reduced to the range of int, outside of which C leaves the result undefined.
- Fifo.Queue: the stretch between acquiring and releasing the mutex is one step; memory-level interleavings inside it, the mutex's own fairness, `size()` and the destructor are not modelled.
- fuse.cc, extent_client.cc, extent_smain.cc: callbacks and pass-through code.
- rpc/ apart from the queue, gettime.cc, lang/: the transport and platform wrappers.
- Heap management, logging and the superblock fields, which no operation reads but for the block count.
