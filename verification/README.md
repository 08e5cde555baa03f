# Verified model of the Dunit OS kernel's stateful core

This project models the parts of the kernel where state and protocols are hardest to get right, and
proves what they keep. Every core file is modelled in two layers. The first layer is values and functions:
the state of a file system, of the process table, of a ring shared with a device, and what one operation
makes of it. The second layer is the code itself: a class with the fields the C code updates in place, and
methods with the same loops, branches and error returns, each proved to change the state exactly as the
first layer says. The theorems are about the first layer. The standing invariants can be met: they hold
of a freshly made file system, table, ring, queue and tree (`Ext4Facts.FreshIsValid`, `Process.Init`,
`XhciRing.FreshOk`, `Virtqueue.SetupOk`, `Ramfs.RamFs.Mount`), and of a file system with a directory in which
names can be added and files created (`Ext4Facts.FreshDirectory`).

| files | what they model |
|---|---|
| `Wrappers.dfy`, `Bytes.dfy`, `Arith.dfy` | options; bytes, little-endian words, bitmaps; division facts |
| `Ext4*.dfy` | the ext4 driver: layout and ownership, bitmap allocation, counters, inodes packed in table blocks, the block map, byte reads and writes, directory records, file creation, and what bits, bytes and modes mean (`Ext4Meaning.dfy`). The device is a map from block number to bytes |
| `Process.dfy`, `ProcessRuns.dfy`, `ProcessEffects.dfy`, `KillTree.dfy`, `ProcessTable.dfy` | the process table, voluntary and timer scheduling, exit, kill, what each does slot by slot, and the work list of `kill_children` |
| `Ramfs*.dfy`, `Vfs*.dfy` | ramfs nodes with their child and sibling pointers, path walking, and the path operations over them |
| `Virtqueue.dfy` | the input virtqueue against a device that takes, fills and completes descriptors at any time |
| `Pipe.dfy` | the pipe and its threads, one step per section under the lock |
| `XhciRing.dfy` | the xHCI command ring against a controller that follows cycle bits and the link TRB |
| `Elf.dfy`, `ElfLoader.dfy`, `ElfMeaning.dfy` | the ELF64 loader, base independence, where programs are placed, and the file format byte by byte |
| `Printk.dfy`, `PrintkText.dfy` | `itoa`, the bounded formatter, and what each conversion prints |

## What the proofs found

Where the code does not keep a property in general, the model keeps the code as it is, shows the failure
and states exactly when the property holds.

- ramfs `rename` checks neither that the new parent is a directory nor that it lies outside the subtree moved.
  It leaves a tree if and only if both hold (`RamfsMoves.RenameKeepsTreeIff`); otherwise every path to the node
  moved and to what is below it is lost, and every other path leads where it led (`Vfs.BadlyRenamedPaths`).
  Moved into its own subtree, as `/a` to `/a/b` (`Vfs.RenameIntoItself`), the node is cut off from the root
  (`RamfsMoves.CutOff`). Moved into a file, as `/b` to `/a/c` (`Vfs.RenameIntoFile`), it keeps a chain of parents to
  the root (`RamfsMoves.RenameKeepsRootedIff`).
- ramfs creation does not look for the name first, so sibling names stay unique if and only if the name was
  free (`RamfsTree.AddKeepsNamesIff`; creating `/a` twice, `Vfs.CreateTwice`); under a parent that is a file it
  counts a node that nothing refers to (`Vfs.VfsCreate`, `Vfs.VfsOpen`; creating `/a/b` under a file `/a`,
  `Vfs.CreateUnderFile`).
- ramfs unlink frees a file without looking for children, which a move into a file can give it. No node is
  left with a freed parent if and only if the file has none (`RamfsMoves.NoOrphansIff`; moving `/b` to `/a/c` and
  unlinking `/a`, `Vfs.UnlinkOrphans`).
- The command ring has 63 usable slots, and a driver that keeps up to 63 commands outstanding breaks it: while
  the controller is about to step over the link TRB, filling the 63rd slot rewrites the link and strands it
  (`XhciRing.FullRingStrands`). Putting commands only while fewer than k are outstanding is safe in every
  interleaving if and only if k is at most 62 (`XhciRing.SafeBoundIff`).
- The wait of a ready process has a bound over all runs if and only if it is in slot 0
  (`ProcessRuns.WaitBoundedIffSlotZero`). Returning to the kernel restarts the scan at slot 0, and a decision
  taken in the kernel picks a ready slot if and only if no lower slot is ready
  (`ProcessRuns.KernelPicksLowest`), so any other slot can be passed over any number of times
  (`ProcessRuns.StarvationAcrossKernel`). In a stretch that does not return to the kernel every wait is
  bounded (`ProcessRuns.BoundedWaiting`).
- Freeing a block or an inode does not look at its bit. The counters stay exact if and only if the bit was set
  (`Ext4Alloc.CountsGiveBlock`, `Ext4Alloc.CountsGiveInode`; freeing a free block of a small file system,
  `Ext4Facts.DoubleFree`), and the whole invariant if and only if besides nothing names the block any more
  (`Ext4Steps.GiveBlockKeeps`).
- `ext4_alloc_inode` searches whole bitmap bytes, so it sees every inode if and only if the inodes of a group
  are a multiple of eight (`Ext4Facts.InodeSearchCompleteIff`).
- The ELF loader copies `p_filesz` bytes even where `p_memsz` is smaller; the image lies inside the reported
  size if and only if no such bytes go past the highest segment (`Elf.ImageInSizeIff`; a failing file,
  `ElfLoader.OverlongSegment`). The span `elf_calc_size` reports is the load size if and only if a segment
  starts at address 0 (`ElfLoader.SpanIsSizeIff`; a failing file, `ElfLoader.SpanBelowSize`).
- A file that is not PIE is loaded at its own addresses. It leaves an earlier program alone, whatever memory holds,
  if and only if none of its segments reaches into it (`ElfLoader.FixedLoadSparesIff`; a file that writes at address
  16 at every base, `ElfLoader.FixedFileWrites`).
- `process_create` stores the creator's slot number in `parent_pid` (kernel/core/process.c:254), which
  `kill_children` compares with pids. The kill tree of a process with pid p therefore frees what slot number p
  created and what descends from that, by the recorded field. Every pid exceeds its slot number, so killing or
  exiting never frees a process that the one killed created (`Process.OwnChildrenSpared`): its children die with it
  if and only if it has none (`Process.KillFreesChildrenIff`). In a run of four steps a child outlives its creator
  (`ProcessRuns.OrphanRun`).
- Creating an ext4 directory ignores failures to write its `.` and `..` entries. The new directory has no entries if
  and only if the entry in its parent takes the last free block, and otherwise it has both
  (`Ext4Facts.DirectoryEmptyIff`; with one block left, `Ext4Facts.DirectoryOnLastBlock`). Its link count stays 1.
- Adding an entry to an ext4 directory never looks at the block map past the directory's end: growing over a block
  mapped there loses it, and no other entry does (`Ext4Facts.EntryLosesIff`; a directory that maps block 4 past its
  end, `Ext4Facts.EntryLosesBlock`). Writes lose no block (`Ext4Driver.Ext4.WriteFile`).

## Model

| member | source | states |
|---|---|---|
| Ext4Alloc.ChosenFirst | kernel/fs/ext4.c:239-295 | allocation takes the lowest clear bit of the first group, in cyclic order from the preferred one, that has any |
| Ext4Alloc.FullIffNoneClear | kernel/fs/ext4.c:239-295 | allocation fails exactly when no group has a clear bit in range |
| Ext4Alloc.CountsTakeBlock | kernel/fs/ext4.c:273-290 | after an allocation each group's 16-bit lo/hi counter is still the number of clear bits in its bitmap range, and the superblock's their sum |
| Ext4Alloc.CountsGiveBlock | kernel/fs/ext4.c:297-333 | after freeing a block the block counters equal the clear bits and their sum exactly when its bit was set |
| Ext4Alloc.CountsGiveInode | kernel/fs/ext4.c:394-429 | after freeing an inode the inode counters equal the clear bits and their sum exactly when its bit was set |
| Ext4Alloc.FullMeansZero | kernel/fs/ext4.c:239-295 | when no block can be chosen the superblock's free count is zero |
| Ext4State.InodeHome | kernel/fs/ext4.c:435-470 | inode n is item (n - 1) mod inodes-per-group of its group's table, wholly inside one block |
| Ext4State.InodesApart | kernel/fs/ext4.c:435-510 | different inodes packed in one block do not overlap |
| Ext4Steps.BlockNumbering | kernel/fs/ext4.c:297-333 | block first + group * size + bit and the pair (group, bit) determine each other |
| Ext4Steps.TakeBlockKeeps | kernel/fs/ext4.c:239-295 | the block allocated was named by nothing, exactly it becomes used, no pointer anywhere changes its target, and the whole invariant is kept |
| Ext4Steps.GiveBlockKeeps | kernel/fs/ext4.c:297-333 | freeing a block makes exactly it free, moves no pointer target, and keeps the whole invariant exactly when its bit was set and nothing names it |
| Ext4Steps.GiveUndoesTake | kernel/fs/ext4.c:239-333 | freeing an allocated block restores bitmaps and counters exactly, whatever was written into the block in between |
| Ext4Steps.TakeInodeKeeps | kernel/fs/ext4.c:339-392 | allocating an inode adds exactly that number to the used ones and keeps counters and ownership |
| Ext4Steps.GiveInodeKeeps | kernel/fs/ext4.c:394-429 | freeing an inode removes exactly that number, and keeps the whole invariant exactly when its bit was set |
| Ext4Steps.WriteInodeKeeps | kernel/fs/ext4.c:472-510 | writing an inode changes that stored inode and no other, no bitmap and no block target |
| Ext4Ownership.TargetsAfterSlot | kernel/fs/ext4.c:588-637 | re-pointing one slot of an inode moves that slot's target and no other, including what hangs below indirect slots |
| Ext4Ownership.TargetsAfterEntry | kernel/fs/ext4.c:605-633 | storing a word in an indirect block moves that entry's target and no other |
| Ext4Ownership.OwnedAfterRelink | kernel/fs/ext4.c:588-637 | pointing one place at a block nothing names keeps every block named once and marked used |
| Ext4Files.PlaceOfInjective | kernel/fs/ext4.c:516-586 | different file blocks, of one file or two, have their pointers in different places, direct, indirect or double indirect |
| Ext4Files.LinkEntry | kernel/fs/ext4.c:605-633 | linking a block through the indirect block is a functional update of the block map and keeps the invariant |
| Ext4Files.NewIndirect | kernel/fs/ext4.c:605-625 | zeroing a fresh block and making it the indirect block changes no file |
| Ext4Files.FileWriteKeeps | kernel/fs/ext4.c:753-821 | writing the block of a file block changes the bytes of that block of that file and of nothing else, and keeps the invariant |
| Ext4Strays.StraysTake | kernel/fs/ext4.c:239-295 | an allocated block is used without a name until it is linked, and is the only such block more |
| Ext4Strays.StraysLink | kernel/fs/ext4.c:588-637 | linking it takes it out of those blocks and puts in the one its place named before |
| Ext4Strays.ConservedUse | kernel/fs/ext4.c:588-821 | where the used blocks without a name are the same before and after and none became free, the used blocks are those used before and those newly named |
| Ext4Content.WriteRound | kernel/fs/ext4.c:766-812 | one round of the write loop turns "first k bytes in place" into "first k + n bytes in place", with fresh blocks zero outside the range |
| Ext4Content.WriteFinishes | kernel/fs/ext4.c:753-821 | storing the inode's new size ends a write that put exactly the first k bytes in place |
| Ext4Content.CountedRound | kernel/fs/ext4.c:770-790 | one round of the write loop keeps i_blocks at its old value plus one block's 512-byte sectors for every file block touched so far that was a hole, modulo 2^32 |
| Ext4Content.ReadAfterWrite | kernel/fs/ext4.c:753-821 | reading the n bytes a write reported, at the same offset, gives the first n bytes of the data, across direct, indirect and double indirect blocks |
| Ext4Content.OtherFilesReadTheSame | kernel/fs/ext4.c:753-821 | every read of every other file gives what it gave before the write |
| Ext4Dir.SplitTiled | kernel/fs/ext4.c:681-705 | splitting a record leaves the block exactly tiled by well-formed records, with the new entry inserted among the old ones |
| Ext4Dir.FreshBlock | kernel/fs/ext4.c:712-735 | a new directory block is tiled by one record holding the new entry |
| Ext4Dir.InsertedMultiset | kernel/fs/ext4.c:643-747 | the (inode, name, type) entries gain exactly the new one |
| Ext4Names.SplitAdds | kernel/fs/ext4.c:681-705 | writing the split block adds the entry to the directory and touches no other file |
| Ext4Names.NewBlockAdds | kernel/fs/ext4.c:707-745 | linking a new block and growing the directory adds the entry, touches no other file and keeps the invariant |
| Ext4Names.AbandonBlock | kernel/fs/ext4.c:707-739 | a block allocated, written and given back leaves bitmaps, counters, inodes and contents as they were |
| Ext4Create.EmptyInodeMatters | kernel/fs/ext4.c:827-876 | an inode with no block pointers neither makes nor breaks ownership and changes no contents |
| Ext4Create.UnbornInode | kernel/fs/ext4.c:827-860 | freeing the inode of a failed creation restores bitmaps, counters, inodes and contents |
| Ext4Facts.NamedBlocksOwned | kernel/fs/ext4.c:239-295 | between operations every named block is marked used and named once, and none named by a file is a bitmap or table block |
| Ext4Facts.FileBlocksApart | kernel/fs/ext4.c:516-637 | no block of contents is shared by two file blocks or two files |
| Ext4Facts.InodeSearchCompleteIff | kernel/fs/ext4.c:339-392 | the search by whole bytes misses no inode exactly when the inodes of a group fill whole bytes |
| Ext4Facts.DirectoryEmptyIff | kernel/fs/ext4.c:827-876 | a directory created has no entries exactly when the free blocks beforehand are as many as the entry in the parent takes |
| Ext4Facts.DirectoryOnLastBlock | kernel/fs/ext4.c:827-876 | a valid state with one free block in which a creation in directory 1 succeeds and every directory it creates has no entries |
| Ext4Facts.EntryLosesIff | kernel/fs/ext4.c:707-745 | adding an entry loses a block exactly when the directory grows over one mapped past its end |
| Ext4Facts.EntryLosesBlock | kernel/fs/ext4.c:707-745 | a valid state in which an entry can be added to directory 1 and every addition loses block 4 |
| Ext4Facts.DoubleFree | kernel/fs/ext4.c:297-333 | freeing one of the two free blocks of a small file system leaves the disk alone and makes the count three |
| Ext4Meaning.DirectoryBit | kernel/fs/ext4.c:859-876 | a mode is a directory's exactly when its bit 0x4000 is set, whatever the other bits |
| Ext4Meaning.DirectoryTypes | kernel/fs/ext4.c:859-876 | 0x4000 with any permissions is a directory; 0x8000, 0xA000 and no type are not |
| Ext4Meaning.RegularFileMade | kernel/fs/ext4.c:827-876 | a creation with mode 0x8000 and any permissions makes an entry of type 1, an inode that is zero but for that mode and a link count of 1, and leaves the parent's link count alone |
| Ext4Meaning.DirectoryMade | kernel/fs/ext4.c:827-876 | a creation with mode 0x4000 and any permissions makes an entry of type 2, counts one link more to the parent, and gives the directory one block with "." and ".." of type 2, or, with no block left, none |
| Ext4Meaning.NamesFit | kernel/fs/ext4.c:649-650 | a name of up to 255 bytes is stored whole, a longer one by its first 255 |
| Ext4Meaning.RecordLength | kernel/fs/ext4.c:652-654 | a record takes eight bytes and the name, rounded up to a multiple of four |
| Ext4Meaning.RecordBytes | kernel/fs/ext4.c:681-735 | inode number, record length, name length, type and name of a record, byte by byte |
| Ext4Meaning.BlockMark | kernel/fs/ext4.c:255-272 | block first + group * size + n is used exactly when bit n of its group's bitmap is set |
| Ext4Meaning.InodeMark | kernel/fs/ext4.c:339-392 | inode group * size + n + 1 is used exactly when bit n of its group's inode bitmap is set |
| Ext4Meaning.BitmapBit | kernel/fs/ext4.c:255-272 | bit n of a bitmap is the one worth 2^(n mod 8) of byte n / 8 |
| Ext4Meaning.InodeFields | kernel/fs/ext4.c:435-510 | which bytes of an inode are mode, size, links, i_blocks and the block pointers, little-endian |
| Ext4Meaning.BlockMapIs | kernel/fs/ext4.c:516-586 | file blocks 0 to 11 are named by the inode, the next blockSize / 4 by the block of slot 12, and the next (blockSize / 4)^2 by the blocks that slot 13's block names; a zero on the way is a hole |
| Ext4Meaning.BlockMapEnds | kernel/fs/ext4.c:516-586 | past those nothing is mapped |
| Ext4Meaning.StoredByte | kernel/fs/ext4.c:909-954 | byte p of a file is byte p mod blockSize of the block of file block p / blockSize |
| Ext4Driver.Ext4.FindClear | kernel/fs/ext4.c:255-272 | the byte and bit scan finds the lowest clear bit below the limit, or reports none |
| Ext4Driver.Ext4.AllocBlock | kernel/fs/ext4.c:239-295 | returns the chosen block and leaves the state with exactly that bit and those counters changed, or -1 and the state unchanged |
| Ext4Driver.Ext4.FreeBlock | kernel/fs/ext4.c:297-333 | clears exactly that bit and raises exactly its counters, or refuses a block outside the groups |
| Ext4Driver.Ext4.AllocInode | kernel/fs/ext4.c:339-392 | the same for inodes, over the whole bytes of the bitmap |
| Ext4Driver.Ext4.FreeInode | kernel/fs/ext4.c:394-429 | clears exactly that inode's bit, or refuses a number outside the groups |
| Ext4Driver.Ext4.ReadInode | kernel/fs/ext4.c:435-470 | the stored bytes of the inode, or -1 for a number outside the groups |
| Ext4Driver.Ext4.StoreInode | kernel/fs/ext4.c:472-510 | replaces exactly the inode's bytes in its table block |
| Ext4Driver.Ext4.GetFileBlock | kernel/fs/ext4.c:516-586 | the block of the block map, 0 for a hole, for direct, indirect and double indirect indices |
| Ext4Driver.Ext4.SetFileBlock | kernel/fs/ext4.c:588-637 | succeeds exactly when the index is direct or single indirect and a missing indirect block can be allocated; then the map gains exactly the given file block, every other index of every file unchanged, and the free count falls by the indirect block alone; otherwise nothing is mapped |
| Ext4Driver.Ext4.BlockForWrite | kernel/fs/ext4.c:770-795 | the block of the file block, mapped and empty if it was a hole, every other file block unchanged; i_blocks goes up by blockSize / 512 modulo 2^32 exactly when a hole was filled; none, and nothing changed, only when the hole cannot be mapped |
| Ext4Driver.Ext4.WriteFile | kernel/fs/ext4.c:753-821 | how many bytes were written and what every file then holds; the inode's i_blocks goes up by blockSize / 512 modulo 2^32 for every hole filled, its modification time is zero, and its bytes other than those, size and block pointers are unchanged; short only at a hole that cannot be mapped; no block leaks; the invariant is kept |
| Ext4Driver.Ext4.ReadFile | kernel/fs/ext4.c:909-954 | the stored bytes up to the end of the range, of the file, or the first hole |
| Ext4Driver.Ext4.ScanBlock | kernel/fs/ext4.c:669-711 | the record scan ends on a tiled block and finds a record with room exactly when there is one |
| Ext4Driver.Ext4.AddDirEntry | kernel/fs/ext4.c:643-747 | the directory gains exactly the entry and stays tiled, or nothing changes; a block more makes its size a block larger and its i_blocks blockSize / 512 more modulo 2^32, and no other byte of its inode outside the block pointers changes; it succeeds exactly when a record has room or one more block can be mapped, and takes exactly the blocks that costs, all of them named afterwards; the invariant is kept |
| Ext4Driver.Ext4.CreateFile | kernel/fs/ext4.c:827-876 | creates exactly the file or directory, or leaves bitmaps, counters, inodes, names and contents as they were; the inode of a file is zero but for mode and link count, a directory's also but for size, i_blocks and pointers of the block it has, and the parent's changes only as an added entry and, for a directory, one link more make it; it succeeds exactly when an inode can be chosen and the parent can take the name; a directory has "." and ".." exactly when a block is left for them; how many blocks are taken, all of them named afterwards; the invariant is kept |
| Process.CreateKeeps | kernel/core/process.c:161-308 | creation keeps every pid above its slot number and every recorded parent below the child's pid |
| Process.ChainsGoDown | kernel/core/process.c:621-657 | pids grow along every chain of recorded parents, so no chain comes back to where it started |
| Process.DescendsIffReachable | kernel/core/process.c:621-657 | a process descends from p exactly when a chain of recorded parents leads from it to p |
| Process.KillTreeFreesReachable | kernel/core/process.c:621-657 | the kill tree frees exactly the live, non-current slots that a chain of recorded parents leads from |
| Process.OwnChildrenSpared | kernel/core/process.c:621-657 | a kill or exit of a process frees no process its slot is recorded to have created |
| Process.KillFreesChildrenIff | kernel/core/process.c:621-657 | a kill of a process frees all its live children exactly when it has none, and always those of the slot whose number is its pid |
| Process.NextFromIrqIsReady | kernel/core/process.c:572-618 | what the timer scan stops at is ready, and is the interrupted slot or has a usable context |
| ProcessRuns.RunningIsCurrent | kernel/core/process.c:363-618 | in every reachable state a running slot is the current one and what current_process points to, so at most one runs, and every live slot has a usable context, so process_schedule, which does not check it, never switches to a bad one |
| ProcessRuns.DecisionCloser | kernel/core/process.c:436-618 | each scheduling decision chooses a ready slot or moves strictly closer to it |
| ProcessRuns.BoundedWaiting | kernel/core/process.c:436-618 | in a stretch that does not return to the kernel a continuously ready process is passed over at most 14 times |
| ProcessRuns.StarvationAcrossKernel | kernel/core/process.c:436-525 | for every slot but 0 and every n there is a run from the empty table in which the ready process there is passed over n times |
| ProcessRuns.SlotZeroBounded | kernel/core/process.c:436-618 | whatever else happens, returns to the kernel included, a ready process in slot 0 is passed over fewer times than its distance in the scan, and never by a decision of the kernel |
| ProcessRuns.KernelPicksLowest | kernel/core/process.c:436-618 | a decision taken in the kernel, voluntary or by the timer, picks a ready slot exactly when no lower slot is ready |
| ProcessRuns.WaitBoundedIffSlotZero | kernel/core/process.c:436-618 | the wait of a ready process in slot s has a bound over all runs exactly when s is 0 |
| ProcessRuns.OrphanRun | kernel/core/process.c:161-421 | create, schedule, create, exit: the second process lives on with pid 2 and recorded parent 0 |
| ProcessEffects.CreateDoes | kernel/core/process.c:161-308 | a creation that succeeds makes the first free slot a ready process with the next pid, created by the current slot, and changes no other slot; one that fails leaves every live process alone and uses up a pid only if the file loaded |
| ProcessEffects.CreateRefused | kernel/core/process.c:161-308 | with every slot live a creation changes nothing |
| ProcessEffects.FirstIsChosen | kernel/core/process.c:436-618 | a scheduling decision, voluntary or by the timer, switches to the ready slot that comes first after the current one in cyclic order, the current one last |
| ProcessEffects.NoneToChoose | kernel/core/process.c:436-618 | with no slot ready a running process keeps running, one that is not gives way to the kernel, and the timer changes nothing |
| ProcessEffects.DecisionKeepsRunnable | kernel/core/process.c:436-618 | a decision makes no process runnable and stops none from being it, and changes nothing but the states of the slot left and the slot chosen |
| ProcessEffects.LeftIsReady | kernel/core/process.c:497-618 | a process that was running when another was chosen is ready afterwards |
| ProcessEffects.YieldDoes | kernel/core/process.c:424-433 | a yield makes the current process ready and changes nothing else |
| ProcessEffects.KillDoes | kernel/core/process.c:660-705 | killing a live process other than the current one frees its slot and those that chains of recorded parents lead from to it, and changes nothing else; no live process has the pid any more |
| ProcessEffects.KillRefused | kernel/core/process.c:660-705 | a kill of the current process or of a pid that no live process has changes nothing |
| ProcessEffects.ExitDoes | kernel/core/process.c:363-421 | an exit frees the current slot, which keeps its pid and holds the status given, and those reached from its process by recorded parents, changes nothing else, and hands over to the kernel |
| ProcessEffects.ExitInKernel | kernel/core/process.c:363-421 | in the kernel an exit changes nothing |
| KillTreeProof.ChildIsNew | kernel/core/process.c:621-657 | a child met by the work list is new to it |
| KillTreeProof.ListHasRoom | kernel/core/process.c:636-645 | the work list never overflows its 16 entries, so no push is dropped |
| KillTreeProof.KilledIsKillTree | kernel/core/process.c:621-657 | when the list runs empty exactly the live, non-current descendants were freed |
| ProcessTable.Kernel.KillChildren | kernel/core/process.c:621-657 | terminates and leaves the table with exactly the live, non-current descendants freed |
| ProcessTable.Kernel.CreateProcess | kernel/core/process.c:161-308 | takes the first free slot and fills it, or gives the slot back; -1 when there is none |
| ProcessTable.Kernel.ScheduleNext | kernel/core/process.c:436-525 | the table changes as by a voluntary decision (`ProcessEffects.FirstIsChosen`, `NoneToChoose`, `DecisionKeepsRunnable`, `LeftIsReady`), and the table invariant is kept |
| ProcessTable.Kernel.TimerInterrupt | kernel/core/process.c:572-618 | the table changes as by a decision of the timer: with two or more runnable processes it preempts to the first eligible one, and the one left is ready |
| ProcessTable.Kernel.YieldMark | kernel/core/process.c:424-433 | the current process, if there is one, is marked ready, and the table invariant is kept |
| ProcessTable.Kernel.ExitCurrent | kernel/core/process.c:363-421 | frees the current slot with the status given and its descendants, and returns to the kernel, as `ProcessEffects.ExitDoes` spells out |
| ProcessTable.Kernel.KillProcess | kernel/core/process.c:660-705 | frees the process and its descendants, as `ProcessEffects.KillDoes` spells out, or answers -1 for the current one and unknown pids |
| Pipe.StepKeeps | kernel/ipc/pipe.c:43-177 | no section of a read or write loses, repeats or reorders a byte, and exactly the close of the last end frees the pipe |
| Pipe.PipeIsFifo | kernel/ipc/pipe.c:43-136 | over every interleaving, bytes delivered followed by bytes buffered are the bytes accepted |
| Pipe.EmptyReadIsEof | kernel/ipc/pipe.c:43-83 | in every reachable state of every interleaving, a read of at least one byte ends with none exactly when the writers are gone and every byte accepted was delivered |
| Pipe.NeverBothBlocked | kernel/ipc/pipe.c:43-136 | in every reachable state, of a read and a write in flight at least one can move |
| Pipe.WriteAnswers | kernel/ipc/pipe.c:85-136 | in every reachable state of every interleaving, a finished write answers how many of its bytes were put in, all of them while a reader is open, and fails exactly when no reader is left and none was put in; an unfinished section leaves 4096 bytes buffered |
| Pipe.ReadAnswers | kernel/ipc/pipe.c:43-83 | in every reachable state a read is answered with the oldest bytes, as many as it wants or as are buffered, and waits exactly while there are none and a writer is open |
| Pipe.PipeBuffer.TryRead | kernel/ipc/pipe.c:52-82 | takes the oldest bytes from the ring of 4096, positions modulo 4096 agreeing with the count |
| Pipe.PipeBuffer.TryWrite | kernel/ipc/pipe.c:95-135 | puts what fits behind the buffered bytes, or reports a broken pipe |
| Pipe.PipeBuffer.ReleaseRead | kernel/ipc/pipe.c:138-157 | drops one reader and frees the pipe exactly when no end is left |
| Pipe.PipeBuffer.ReleaseWrite | kernel/ipc/pipe.c:159-177 | drops one writer and frees the pipe exactly when no end is left |
| XhciRing.RingIsFifo | drivers/usb/xhci.c:191-215 | for any number of wraps the controller fetches the issued commands in order, while a slot is kept free at the link |
| XhciRing.FetchesNext | drivers/usb/xhci.c:191-215 | with a command outstanding the controller finds it next, or a link it can follow |
| XhciRing.FullRingStrands | drivers/usb/xhci.c:202-214 | with the controller at the link, filling the last slot rewrites the link with the cycle bit it no longer wants |
| XhciRing.StrandingIsReachable | drivers/usb/xhci.c:191-215 | such a state is reached from a zeroed ring with 62 commands outstanding, also by a driver that bounds them by 63 or more |
| XhciRing.SafeBoundIff | drivers/usb/xhci.c:191-215 | a driver that puts a command only while fewer than k are outstanding has every command fetched, in order, in every interleaving exactly when k is at most 62 |
| XhciRing.CommandRing.RingCommand | drivers/usb/xhci.c:191-215 | writes the TRB with the cycle bit, and at slot 63 the toggling link, as the protocol's steps do; the invariant is kept when a slot is free at the link |
| XhciRing.ControlBits | drivers/usb/xhci.c:195-212 | bit 0 of a control word is the cycle bit, bit 1 the toggle bit, bits 10 to 15 the type, 6 for a link |
| XhciRing.LinkWord | drivers/usb/xhci.c:202-212 | the link leads to the start of the ring, with control word 0x1802 or, with the cycle bit, 0x1803 |
| Virtqueue.TakesNext | drivers/input/virtio_input.c:570-573 | the device always takes the oldest descriptor made available: no slot is overwritten before it was taken |
| Virtqueue.CompleteRings | drivers/input/virtio_input.c:539-541 | a completion never overwrites a used slot still to be read |
| Virtqueue.StepKeeps | drivers/input/virtio_input.c:531-582 | each step of driver or device keeps counters modulo 2^16, ring contents, the split of the 16 ids and the pending events |
| Virtqueue.DescriptorsConserved | drivers/input/virtio_input.c:531-582 | over every interleaving each of the 16 ids is in one place, and at loop heads the available index is 16 ahead modulo 2^16 |
| Virtqueue.EachEventOnceInOrder | drivers/input/virtio_input.c:531-582 | over every interleaving the events handled are the completions' events in order, each once, and a poll that ends has handled all it saw |
| Virtqueue.RunsStayInBounds | drivers/input/virtio_input.c:541-543 | the driver never indexes outside the 16 event buffers, though it does not check |
| Virtqueue.PositionIsLastReported | drivers/input/virtio_input.c:545-569 | the pointer x and y are each the last value reported for that axis |
| Virtqueue.ButtonIsLastReported | drivers/input/virtio_input.c:552-569 | either button is as the last report of its own code, 0x110 or 0x111, says |
| Virtqueue.UnreportedStays | drivers/input/virtio_input.c:545-569 | what is not reported stays as it was |
| Virtqueue.ScrollGains | drivers/input/virtio_input.c:552-555 | the scroll sum gains exactly the values of the wheel's reports |
| Virtqueue.MouseQueue.MouseInit | drivers/input/virtio_input.c:702-715 | queue setup makes all 16 descriptors available |
| Virtqueue.MouseQueue.MousePoll | drivers/input/virtio_input.c:531-582 | with the device acting between any two accesses, handles every completion made before the poll once and in order and hands each descriptor back |
| RamfsTree.LookupIs | kernel/fs/ramfs.c:91-113 | a lookup finds a child of that name, or there is none |
| RamfsTree.NoCycle | kernel/fs/ramfs.c:115-126 | no node is its own ancestor |
| RamfsTree.AddKeepsTree | kernel/fs/ramfs.c:312-362 | creation keeps the tree, whatever the parent is |
| RamfsTree.AddKeepsNamesIff | kernel/fs/ramfs.c:312-362 | creation keeps sibling names unique exactly when the name was free |
| RamfsMoves.RemoveKeepsTree | kernel/fs/ramfs.c:413-466 | unlink and rmdir take exactly one node out and keep tree and unique names |
| RamfsMoves.NoOrphansIff | kernel/fs/ramfs.c:413-466 | taking a node out leaves no node whose parent was freed exactly when the node had no children |
| RamfsMoves.RenameKeepsLists | kernel/fs/ramfs.c:364-411 | wherever a node is moved, child lists stay disjoint and match the parent pointers |
| RamfsMoves.CutOff | kernel/fs/ramfs.c:364-411 | a node moved into its own subtree is cut off from the root with everything below it |
| RamfsMoves.RenameKeepsTreeIff | kernel/fs/ramfs.c:364-411 | rename keeps the tree exactly when the new parent is a directory outside the subtree moved |
| RamfsMoves.RenameKeepsRootedIff | kernel/fs/ramfs.c:364-411 | every chain of parents still reaches the root exactly when the new parent is outside the subtree moved |
| RamfsMoves.RenameKeepsNames | kernel/fs/ramfs.c:371-376 | refusing an existing name keeps sibling names unique |
| RamfsPaths.OnePath | kernel/fs/vfs.c:202-264 | two paths to one node are the same path |
| RamfsPaths.SplitJoined | kernel/fs/vfs.c:202-264 | names joined by runs of slashes, with any number at either end, are split into those names, each cut to its first 255 characters |
| RamfsPaths.RenameMovesPaths | kernel/fs/ramfs.c:364-411 | after a rename old/x is found as new/x, old is gone, every other path leads where it led |
| RamfsPaths.BadRenameLosesPaths | kernel/fs/ramfs.c:364-411 | after a rename into a file or into the subtree moved no path leads into that subtree and every other path leads where it led |
| RamfsPaths.AddMakesOnePath | kernel/fs/ramfs.c:312-362 | creation under a free name adds exactly one path |
| RamfsPaths.RemoveLosesOnePath | kernel/fs/ramfs.c:413-466 | removal takes away exactly one path |
| RamfsLinks.SkipLinks | kernel/fs/ramfs.c:378-388 | bypassing a child by its predecessor's pointer takes exactly it out of the list |
| RamfsLinks.PushLinks | kernel/fs/ramfs.c:121-123 | linking an unlisted node at the head of a list puts it first and keeps every other list |
| Ramfs.RamFs.LookupChild | kernel/fs/ramfs.c:91-113 | walking the sibling pointers ends and finds the first child of that name |
| Ramfs.RamFs.CreateNode | kernel/fs/ramfs.c:312-362 | adds a node under a directory; under anything else the node is counted and lost |
| Ramfs.RamFs.Rename | kernel/fs/ramfs.c:364-411 | the pointer updates move the node as the tree function says, or refuse an existing name |
| Ramfs.RamFs.Unlink | kernel/fs/ramfs.c:413-437 | removes exactly the file of that name, refusing directories and missing names; the structure is kept exactly when the file had no children |
| Ramfs.RamFs.Rmdir | kernel/fs/ramfs.c:439-466 | removes exactly the empty directory of that name, refusing files, non-empty directories and missing names |
| Ramfs.FileBody.Read | kernel/fs/ramfs.c:132-155 | the bytes from the position on, no further than the end |
| Ramfs.FileBody.Write | kernel/fs/ramfs.c:157-199 | the bytes are at the position, the size grows if need be, and all other old bytes are unchanged, also when the buffer is replaced |
| Vfs.LookupParent | kernel/fs/vfs.c:202-264 | the node all but the last component lead to, and the last component cut to 255 characters; none for the root |
| Vfs.VfsRename | kernel/fs/vfs.c:534-580 | which error is answered, or that exactly the named node is moved |
| Vfs.VfsUnlink | kernel/fs/vfs.c:493-533 | which error is answered, or that exactly the named file is removed; the structure is kept exactly when the file had no children |
| Vfs.VfsRmdir | kernel/fs/vfs.c:451-491 | which error is answered, or that exactly the named empty directory is removed |
| Vfs.VfsCreate | kernel/fs/vfs.c:350-380 | adds the node under the parent found, and when the parent is no directory loses it |
| Vfs.VfsOpen | kernel/fs/vfs.c:267-348 | opens the node the path leads to, or with the create flag a new one in the parent found, counted and lost when that is no directory; fails otherwise |
| Vfs.OpenedIsResolved | kernel/fs/vfs.c:267-348 | opening a path with a component finds what the path leads to |
| Vfs.OpenKeepsTree | kernel/fs/vfs.c:267-348 | opening, with or without the create flag, keeps tree and unique names |
| Vfs.RenamedPaths | kernel/fs/vfs.c:534-580 | what a rename of one path string to another does to every path string |
| Vfs.BadlyRenamedPaths | kernel/fs/vfs.c:534-580 | what a rename with a bad target does to every path string: what was at or below the old one is nowhere, the rest is where it was |
| Vfs.RenameKeepsTreeOnlyIf | kernel/fs/vfs.c:534-580 | a rename of paths that succeeds leaves a tree exactly when the target is good |
| Vfs.RemovedPaths | kernel/fs/vfs.c:451-533 | what unlink and rmdir of a path do to every path, and that one node less is left |
| Vfs.CreatedPaths | kernel/fs/vfs.c:350-380 | what creation of a path does to every path |
| Vfs.RunKeepsTree | kernel/fs/vfs.c:267-580 | every run of operations, opens and refused ones included, keeps the tree and unique names when successful moves have good targets and created names are free |
| Vfs.RenameIntoItself | kernel/fs/vfs.c:534-580 | renaming /a to /a/b succeeds and leaves no tree |
| Vfs.CreateTwice | kernel/fs/vfs.c:350-380 | creating /a where there is an /a succeeds and leaves two children of one name |
| Vfs.CreateUnderFile | kernel/fs/vfs.c:350-380 | creating /a/b where /a is a file succeeds and adds nothing to the tree |
| Vfs.RenameIntoFile | kernel/fs/vfs.c:534-580 | renaming /b to /a/c where /a is a file succeeds; the node is at no path but its parents still reach the root |
| Vfs.UnlinkOrphans | kernel/fs/vfs.c:493-580 | unlinking /a after that succeeds and frees the parent of a node still there |
| VfsMeaning.RenameAnswers | kernel/fs/vfs.c:534-580 | when a rename answers -2 or -17, and that else it gives the node its new name and parent and leaves every other node but for child lists as it was |
| VfsMeaning.UnlinkAnswers | kernel/fs/vfs.c:493-533 | when an unlink answers -2 or -21, and that else exactly the file is gone |
| VfsMeaning.RmdirAnswers | kernel/fs/vfs.c:451-491 | when an rmdir answers -2, -20 or -39, and that else exactly the empty directory is gone |
| VfsMeaning.CreateAnswers | kernel/fs/vfs.c:350-380 | when a creation answers -2, and that else under a directory there is exactly one node more, of the kind and name asked for, at the head of its list |
| Elf.LoadedIsImage | kernel/loader/elf.c:182-227 | the segments put file bytes and zeroed BSS at the base, or at their own addresses if the file is not PIE, and change nothing else |
| Elf.ImageInSizeIff | kernel/loader/elf.c:209-227 | the image lies inside the reported size exactly when no file bytes go past it |
| ElfLoader.OverlongSegment | kernel/loader/elf.c:209-227 | a file that passes validation, with 8 file bytes in a segment of memory size 4, puts a byte past the reported size |
| Elf.RelocationEffect | kernel/loader/elf.c:110-160 | relocations, each read from memory as it then is, set exactly the words aimed at |
| Elf.PieLoaded | kernel/loader/elf.c:163-252 | a well-formed PIE file is its image at the base, except that each relative target is the base plus the addend |
| Elf.BaseIndependent | kernel/loader/elf.c:163-252 | loads at two bases agree except in the relative targets, which differ by the base difference modulo 2^64 |
| Elf.LoadStaysInside | kernel/loader/elf.c:182-227 | a load changes nothing outside the load size from the base on |
| ElfLoader.CalcSize | kernel/loader/elf.c:78-107 | the span from the lowest to the highest address of the load segments |
| ElfLoader.SpanIsSizeIff | kernel/loader/elf.c:78-107 | the span is the size the loader reports exactly when a segment starts at address 0 |
| ElfLoader.SpanBelowSize | kernel/loader/elf.c:78-107 | a file whose one segment starts at 16 has span 4 and load size 20 |
| ElfLoader.Machine.ProcessRelocations | kernel/loader/elf.c:110-160 | scans the dynamic table and applies the relocations found |
| ElfLoader.Machine.LoadAt | kernel/loader/elf.c:163-252 | memory and answer after a load, also when a bad header stops it part of the way |
| ElfLoader.WellFormedFits | kernel/loader/elf.c:163-252 | a well-formed file needs nothing of memory but that its segments fit |
| ElfLoader.Machine.PlaceProgram | kernel/core/process.c:214-245 | loads at the next aligned address plus the random offset and moves the next address past the program |
| ElfLoader.CreationFacts | kernel/core/process.c:229-245 | a creation changes nothing where it has no segment, a PIE one nothing below its base, and the next address is past the program with a gap |
| ElfLoader.EarlierProgramsSafe | kernel/core/process.c:229-245 | over any run and any random offsets a PIE program lies in a 64K-aligned range that ends 64K before any later base, and no later creation changes a byte of it, as long as those that are not PIE have no segment there |
| ElfLoader.FixedLoadSparesIff | kernel/loader/elf.c:182-227 | a file that is not PIE leaves a range alone, whatever memory holds, exactly when no segment of it reaches into the range |
| ElfLoader.FixedFileWrites | kernel/loader/elf.c:182-227 | a file that is not PIE with a segment at 16 is accepted and writes there at every base |
| ElfMeaning.ValidIff | kernel/loader/elf.c:25-70 | a file is accepted exactly when it has 64 bytes, the magic, class, byte order, machine and type asked for |
| ElfMeaning.HeaderIs | kernel/loader/elf.c:72-98 | which bytes of the file say whether it is PIE, its entry point and where its program headers are |
| ElfMeaning.SegmentIs | kernel/loader/elf.c:182-227 | which bytes of a program header are type, offset, address and sizes |
| ElfMeaning.GoodIff | kernel/loader/elf.c:182-209 | a header passes exactly when it and, for a load segment, its file bytes lie in the file |
| ElfMeaning.ImageByteIs | kernel/loader/elf.c:209-227 | a byte of the image is that of the last load segment over it: the file's, or zero past the file bytes |
| ElfMeaning.NoImageByte | kernel/loader/elf.c:182-227 | where no load segment is the image has no byte |
| ElfMeaning.SizeIs | kernel/loader/elf.c:224-227 | the load size is the end of the highest load segment |
| ElfMeaning.DynamicIs | kernel/loader/elf.c:192-197 | the dynamic table is where the last header of type 2 says |
| ElfMeaning.TableIs | kernel/loader/elf.c:110-131 | up to its first entry with tag 0, the last entries of the dynamic table with tags 7, 8 and 9 give address, size and entry size of the relocations |
| ElfMeaning.RelocationIs | kernel/loader/elf.c:137-152 | the three words of a relocation, and which types are relative on each machine |
| ElfMeaning.TargetIs | kernel/loader/elf.c:153-155 | the word stored is the base plus the addend modulo 2^64 |
| ElfMeaning.PlacedAt | kernel/core/process.c:214-245 | a program is tried at the least multiple of 64K from the next address plus the random offset on; if it loads, the next address is the least multiple from 64K past its end on, and else it stays |
| Printk.NumberReadsBack | kernel/core/printk.c:33-67 | a number printed in a base reads back as the number |
| Printk.LowFirstReversed | kernel/core/printk.c:50-64 | the digits made from the low end, reversed, are the number's digits |
| Printk.Reverse | kernel/core/printk.c:21-31 | reverses the first characters in place and touches nothing after them |
| Printk.Itoa | kernel/core/printk.c:33-67 | writes the number's text and a NUL within 32 characters, for every 64-bit value in base 10 or 16 |
| PrintkText.DigitsInOrder | kernel/core/printk.c:33-67 | the sixteen digits of either case are read as 0 to 15 in order |
| PrintkText.NumberPrints | kernel/core/printk.c:78-217 | d, i, u, x and X print the shortest numeral that reads back, in base 10 or 16, to the argument of 32 or, with a length modifier, 64 bits, signed for d and i, upper case for X, behind blanks or with the zero flag zeros up to the width |
| PrintkText.PointerPrints | kernel/core/printk.c:78-217 | p prints "0x" and sixteen lower-case hexadecimal digits that read back to the 64-bit argument |
| PrintkText.StringPrints | kernel/core/printk.c:78-217 | s prints the string, or "(null)" for a null pointer |
| PrintkText.CharacterPrints | kernel/core/printk.c:78-217 | c prints the character of the low byte |
| PrintkText.OthersPrint | kernel/core/printk.c:78-217 | a doubled percent sign prints one, an unknown conversion its character behind a percent sign, and neither takes an argument |
| PrintkText.RenderText | kernel/core/printk.c:78-217 | text without percent signs prints as it is and takes no argument |
| PrintkText.RenderConcat | kernel/core/printk.c:78-217 | a format with no incomplete conversion followed by another prints what the two print, the second with the arguments left |
| Printk.Kvsnprintf | kernel/core/printk.c:78-217 | writes exactly the first size - 1 characters of the unbounded rendering, which `PrintkText` spells out, and a NUL, and nothing past the size; with size 0 only a NUL at the start of the buffer |

## Left out

- Device and allocation failures: the device is reliable and `kmalloc` succeeds.
- `ext4_mount`, superblock write-back, extents, triple indirect blocks, unlink, truncate and timestamps. Truncation keeps pointers to freed blocks, so ownership does not survive it.
- ext4 geometry: block-mapped inodes, power-of-two block size of at most 4096, block and inode numbers and file offsets below 2^31, and at most 8 * block size blocks and inodes per group. The group descriptors are a sequence and the device a map that the methods reassign, so aliasing of C buffers is not modelled.
- Ext4Driver.Ext4.WriteFile: takes the inode number, when in range, to be in use, which the code does not check.
- Ext4Driver.Ext4.ReadFile: takes the inode number, when in range, to be in use, which the code does not check.
- Ext4Driver.Ext4.AddDirEntry: takes the parent to be a directory whose blocks are tiled, which the code does not check.
- Ext4Driver.Ext4.CreateFile: takes the parent to be a directory whose blocks are tiled, which the code does not check.
- Process creation is one step, so races over a reserved slot, `process_exec_args`, stacks and the assembly context switch are not modelled; pids do not overflow. The switch itself is what current and current_process name, and is taken to save a usable context.
- Pipe locks make each section one step; handles are closed when no call on them is in flight and once each.
- Virtqueue and xHCI memory accesses are sequentially consistent, one shared word at a time; barriers, notification registers and MMIO are not modelled. `keyboard_poll` has the same ring handling as `mouse_poll` and is not repeated; its key tables are left out. The scroll sum is unbounded.
- VFS dentries and inodes are the ramfs nodes they stand for; permission bits, readdir, seek and mounts are left out. Unlinking walks with the predecessor's node where the code uses a pointer to its pointer.
- ELF header and address arithmetic is unbounded, memory is one buffer that the segments must fit in, and a program header that does not lie in the file, possible only when e_phentsize is below 56, reads as unused.
- Elf.PieLoaded: needs relative targets apart from each other and from the relocation table, both tables and all targets inside the image, and entries of 24 bytes; the code checks none of this.
- Printk.Kvsnprintf: takes the format not to end inside a conversion, nor to lack an argument, before the buffer is full, since the code then reads past them; widths do not overflow. With size 0 it takes the buffer to have a place, where the code writes its NUL.
- GUI, drivers other than those above, boot code and library strings would only add easy members or hardware access.
