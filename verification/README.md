# tetOS kernel model

A Dafny model of the stateful core of tetOS, an i386 kernel, with proofs of what it promises over
every run. Each component comes in two layers. A specification on plain values (`...Spec`, and the
first half of most modules) says what each operation does; the theorems about runs are proved
there. The classes keep the state the way the C and assembly code keeps it (sectors, header chains,
bitmap words, page-table words, the slot table with its next pointers, ring buffers, linked
windows) and change it in place; every method is proved to do what the specification says.

| Component | Files |
|---|---|
| bytes, words and bits, memset and memcpy | `Bits`, `Memory` |
| tetFS on 512-byte sectors, and its descriptors | `TetFsLayout`, `TetFsSpec`, `TetFsProofs`, `TetFsTheorems`, `TetFsWitnesses`, `TetFs`, `Vfs`, `Fds`, `Sessions` |
| kernel heap | `HeapSpec`, `Heap` |
| frame allocator and paging | `Frames`, `Paging`, `Spaces` |
| ELF loader and exec | `Elf`, `ElfLayout`, `Budget`, `Loader`, `Exec`, `ExecCodes`, `FewFrames` |
| scheduler | `SchedSpec`, `SchedLaws`, `SchedWait`, `SchedExit`, `SchedTable`, `Scheduler` |
| context switch | `Context`, `Stacks`, `Switching`, `SharedStack`, `TwoPrograms`, `Stub` |
| mutex, pipe | `Mutex`, `MutexCalls`, `Pipe`, `PipeSteps`, `PipeCalls` |
| line drawing, window manager | `Line`, `WindowSpec`, `WindowLaws`, `Windows` |

`dafny verify dfyconfig.toml` checks the whole project.

## Assumptions

- Every sector read and write succeeds; the code has no recovery between the bitmap write and the
  inode write. Requests stay on the disk (`WfDisk`).
- create, kill, exit and tick are atomic steps; exec brackets the creation with cli and sti.
- Physical memory is directly addressable, though the kernel identity-maps only its first 32 MB.
- A block header takes 16 bytes. `kfree` gets NULL or a live payload; frames freed are live ones
  (for any other, `Frames.FrameAllocator.Free` says what happens).
- pids, of which there are 2^32, do not wrap around.
- The framebuffer has a fixed, nonzero size below 2^31 in each direction.
- Only the process that holds the mutex unlocks it.
- Code that runs in a process writes no other process's kernel stack and keeps its stack pointer in
  kernel mode on its own stack or, in a system call, on the stack of the TSS; stacks do not overflow.
- File content, names and pointers from callers are byte sequences and arrays; names carry no NUL.

## Where the code falls short of what it seems to promise

Each of these has its exact condition, and a concrete run or input that shows it.

- `tss.esp0` is set once, so all programs interrupted in user mode leave their frames at one
  address. The tick of a second program overwrites the frame of the first, which then goes on with
  the other one's registers (`TwoPrograms.TwoProgramsClash`). System calls, and the wait loop of
  `process_exit` in one, use the same stack. A waiting process is sure to keep its registers
  exactly when `SharedStack.TickIff` says so of a tick, in user mode or in the kernel, and
  `SharedStack.WorkIff` of system calls; `Switching.ContextIntegrity` is the run.
- `tetfs_write` counts blocks in 16 bits. Lengths above 33,553,920 can be accepted and then lost
  (`TetFsTheorems.LongWriteStoresNothing`); the disk stays well formed iff the length is at most
  8192 (`TetFsProofs.WriteInvIff`).
- `tetfs_read` adds offset and len in 32 bits; when that wraps inside a file that does not fill its
  last block, it returns slack bytes after the end (`TetFsTheorems.ReadMeaning`,
  `TetFsWitnesses.WrappingRead`).
- `tetfs_create` compares the whole name but stores 50 bytes of it, so two longer names can collide
  and neither is found again (`TetFsTheorems.CreateNames`, `TetFsWitnesses.LongNamesCollide`).
- `vfs_write` accepts descriptors opened read-only, since `VFS_O_RDWR` contains the read-only bit
  (`Vfs.WriteRefusedIff`).
- A descriptor keeps an inode number. It names the file it was opened on as long as nobody deletes
  that inode (`Sessions.NamesTheFileIff`); after that the next creation may take the inode over,
  and the descriptor reads the other file (`Sessions.DeletedInodeReused`,
  `TetFsWitnesses.StaleDescriptor`).
- `pmm_free_frame` of a free frame lets the counter drift (`Frames.FrameAllocator.Free`,
  `Frames.FreedTwice`).
- `process_kill` of the process run_queue points to leaves a pointer into a cleared slot
  (`Scheduler.Processes.Kill`, `SchedTable.HeadKillBreaksRing`, `SchedTable.HeadWaits`).
- A process that exits is removed at the next tick iff some other process is ready; otherwise it is
  made Running again and stays in the ring for good unless it is killed, and so does the zombie
  that `process_fork_stub` makes (`SchedExit.ExitThenTick`, `SchedExit.StaysForGood`; the shell
  alone: `SchedExit.ShellRunsOn`).
- exec does not notice when no frame is left for the table of the stack page: the program is started
  without it when the free frames reach the one budget and not the other (`Loader.LoadImage`,
  `FewFrames.StartsWithoutStack`).
- exec never gives back frames: every failure after the address space is made loses the directory,
  the tables and the pages put until then (`Exec.Kernel.ExecElfFromDisk`; how many:
  `Loader.LeavesInNewSpace`; a run: `FewFrames.LosesFrame`).

## Model

| member | source | states |
|---|---|---|
| `TetFsLayout.DecodeEncode` | kernel/fs/tetfs.h:47-55 | The 64-byte on-disk inode decodes to the inode that was encoded, field for field. |
| `TetFsLayout.InodeBytes` | kernel/fs/tetfs.h:47-55 | Where each field lies in the 64 bytes, little-endian. |
| `TetFsLayout.OnDisk` | kernel/fs/tetfs.h:9-12 | Which bytes of which sectors are inode i, bit b and block b. |
| `TetFsLayout.PutInodeView` | kernel/fs/tetfs.c:39-46 | Storing an inode through its sector reads back as stored and leaves the other 31 inodes, the bitmap and every data block as they were. |
| `TetFsLayout.PutBitmapView` | kernel/fs/tetfs.c:54-58 | Storing the bitmap leaves every inode and data block as it was. |
| `Memory.MemSet` | kernel/string/string.c:45-51 | The whole buffer holds the value. |
| `Memory.MemCpy` | kernel/string/string.c:53-60 | The bytes lie at the target offset and the rest of the buffer is as before. |
| `TetFsDriver.BitmapSet` | kernel/fs/tetfs.c:64-67 | In place, one bit takes the value asked for and no other of the 8192 changes. |
| `TetFsDriver.AllocBlocks` | kernel/fs/tetfs.c:69-85 | In place: the start returned is that of the lowest free run long enough among blocks 0-1023 and just that run is marked; -1, and no change, when there is none. |
| `TetFsDriver.SameString` | kernel/fs/tetfs.c:140 | The byte-by-byte comparison agrees with equality of the name up to its NUL. |
| `TetFsDriver.TetFs.ReadInode` | kernel/fs/tetfs.c:30-37 | Reads inode idx of the table in the sectors; fails exactly for an index past the table. |
| `TetFsDriver.TetFs.WriteInode` | kernel/fs/tetfs.c:39-46 | The sectors afterwards are those before with the one inode replaced. |
| `TetFsDriver.TetFs.Format` | kernel/fs/tetfs.c:87-119 | From any sectors: a superblock with magic, version and sizes, a well-formed file system with the root alone, no sector outside the metadata touched. |
| `TetFsDriver.TetFs.Mount` | kernel/fs/tetfs.c:121-128 | Mounts the disk iff the magic number and version 1 are in its superblock; a disk just formatted is mounted. |
| `TetFsDriver.TetFs.Find` | kernel/fs/tetfs.c:134-144 | The loop over sectors returns what the search of the abstract inode table returns. |
| `TetFsDriver.TetFs.Create` | kernel/fs/tetfs.c:146-164 | On sectors, does what the abstract creation does; a failed one changes no sector; sectors outside the file system never change. |
| `TetFsDriver.TetFs.Delete` | kernel/fs/tetfs.c:166-184 | On sectors, does what the abstract deletion does; a failed one changes no sector. |
| `TetFsDriver.TetFs.Write` | kernel/fs/tetfs.c:186-224 | On sectors, does what the abstract rewrite does, the empty buffer and the 16-bit block count included; a failed one changes no sector; up to 33,553,920 bytes the disk stays well formed. |
| `TetFsDriver.TetFs.Read` | kernel/fs/tetfs.c:226-249 | The chunk loop fills the front of the buffer with exactly the bytes of the abstract read, 32-bit wrap of offset + len included, and nothing more. |
| `TetFsProofs.CreateRefines` | kernel/fs/tetfs.c:146-164 | A creation adds one entry, named by the first 50 bytes and empty, exactly when the name is free and a slot is left; -1 and no change otherwise. |
| `TetFsProofs.DeleteRefines` | kernel/fs/tetfs.c:166-184 | A deletion removes one entry and keeps every other file's content; the root and free slots are refused. |
| `TetFsProofs.WriteRefines` | kernel/fs/tetfs.c:186-224 | A write replaces the content of its own file and of no other, whatever blocks it moves to; writing nothing to a file never fails. |
| `TetFsProofs.WriteInvIff` | kernel/fs/tetfs.c:192-193 | After a successful write the bitmap, extents and sizes are still exact if and only if the length is at most 8192; up to 33,553,920 bytes the code enforces that itself. |
| `TetFsTheorems.FormatEstablishes` | kernel/fs/tetfs.c:87-119 | A formatted disk is well formed and holds the root directory alone. |
| `TetFsTheorems.StepRefines` | kernel/fs/tetfs.c:146-224 | Every create, delete and write keeps the bitmap exact (a bit is set iff its block lies in the extent of exactly one live inode) and does to the table of files what its result says. |
| `TetFsTheorems.RunRefines` | kernel/fs/tetfs.c:146-224 | So does every run of them: the disk always stands for the table of files that the results of the calls describe. |
| `TetFsTheorems.WriteSucceedsIff` | kernel/fs/tetfs.c:186-206 | A write of any length succeeds iff the file exists, its block count is allowed and, unless it is empty, some run is free once its own extent is given back; it gets the lowest such run; a failure changes nothing. |
| `TetFsTheorems.EmptyWrite` | kernel/fs/tetfs.c:190 | Writing nothing to a file returns 0 and empties it: its size is 0, its extent, the bitmap, the blocks and every other inode are as before. |
| `TetFsTheorems.WriteZeroFills` | kernel/fs/tetfs.c:210-217 | The rest of the last block of a file written is zeroes. |
| `TetFsTheorems.LongWriteStoresNothing` | kernel/fs/tetfs.c:192-193 | The concrete length at which the 16-bit cast breaks the write: 32 MB is accepted with one block free, not a byte is stored, and the disk is no longer well formed. |
| `TetFsTheorems.ReadMeaning` | kernel/fs/tetfs.c:226-249 | A read returns content[offset .. min(offset+len, size)] if and only if offset + len does not wrap, or the offset is past the end, or the file fills its last block. |
| `TetFsTheorems.ReadOtherwise` | kernel/fs/tetfs.c:226-249 | A read fails iff there is no file of that number; one that wraps inside a file returns all that is left of its extent, the content first. |
| `TetFsTheorems.WriteThenRead` | kernel/fs/tetfs.c:186-249 | What a successful write stored is what a read at any offset finds. |
| `TetFsTheorems.PiecesConcatenate` | kernel/fs/tetfs.c:231-232 | The windows that successive reads are clamped to, each starting where the last one ended, join to the content, however it is cut. |
| `TetFsTheorems.CreateNames` | kernel/fs/tetfs.c:146-164 | A successful creation keeps (parent, name) unique iff the name as stored was not taken, and is found under its own name iff that name has at most 50 bytes. |
| `TetFsTheorems.RunKeepsNamesUnique` | kernel/fs/tetfs.c:134-184 | With names of at most 50 bytes, (parent, name) stays unique over every run. |
| `TetFsWitnesses.WrappingRead` | kernel/fs/tetfs.c:231-248 | From a formatted disk: two bytes written to a new file, read from offset 1 with length 2^32 - 1, come back as 511 bytes. |
| `TetFsWitnesses.LongNamesCollide` | kernel/fs/tetfs.c:146-160 | From a formatted disk: two names of 51 bytes that differ in the last are both created, stored alike, and neither is found. |
| `Vfs.WriteRefusedIff` | kernel/fs/vfs.c:63 | vfs_write refuses a descriptor iff neither access bit is set; one opened read-only is not refused. |
| `Vfs.TargetKeeps` | kernel/fs/vfs.c:25-29 | Opening finds or creates an inode whose stored name is the first 50 bytes of the path, under the root; the only change to the table of files is that entry, new and empty, if it was created. |
| `Vfs.TargetIff` | kernel/fs/vfs.c:25-29 | An open finds an inode iff the root holds a file of that name, or the file may be created and an inode is free; a file that is there, the lowest of that name, is opened and not created again. |
| `Vfs.Table.Open` | kernel/fs/vfs.c:22-46 | The lowest free of 32 descriptors, at offset 0, on that inode; no other descriptor changes; when the slots are full the file stays created. |
| `Vfs.Table.Read` | kernel/fs/vfs.c:48-56 | The bytes tetfs_read finds at the descriptor's offset, and the offset moves past exactly those. |
| `Vfs.Table.Write` | kernel/fs/vfs.c:58-71 | A rewrite of the descriptor's file that leaves the offset at the new length; a closed or unwritable descriptor or a NULL buffer changes nothing. |
| `Vfs.Table.Close` | kernel/fs/vfs.c:73-77 | Clears that descriptor alone; fails iff it was not open. |
| `Sessions.DescriptorDeliversContent` | kernel/fs/vfs.c:48-56 | Whatever other files are created, deleted or written between them, successive reads of any sizes through one descriptor deliver, put together, content[offset .. min(offset + all they ask for, size)], and the offset ends there, as long as the file itself is neither deleted nor rewritten and no offset + len wraps. |
| `Sessions.ReadThroughVfs` | kernel/fs/vfs.c:48-56 | The same of vfs_read calls on the descriptor table, between tetFS calls of anyone else on the same sectors: the bytes returned are that part of the content, the offset is behind them, and no other descriptor changes. |
| `Sessions.NamesTheFileIff` | kernel/fs/vfs.c:30-41 | Over every run, the inode a descriptor holds stays in use throughout iff no call deletes it, and then it has the name, parent and kind it had. |
| `Sessions.DeletedInodeReused` | kernel/fs/tetfs.c:146-184 | After the deletion a read finds nothing; the next creation takes the inode iff no lower slot is free, and the descriptor then stands for the new, empty file. |
| `TetFsWitnesses.StaleDescriptor` | kernel/fs/tetfs.c:146-249 | From a formatted disk: one file created and deleted, another created and written, and the inode of the first reads the bytes of the second. |
| `Fds.FdTable.Open` | kernel/fs/tetfs.c:284-305 | The lowest free of 8 descriptors on the file found or created; refused while nothing is mounted. |
| `Fds.FdTable.Read` | kernel/fs/tetfs.c:307-313 | As for vfs_read: the bytes at the offset, which moves past exactly those. |
| `Fds.FdTable.Write` | kernel/fs/tetfs.c:315-318 | Rewrites the file and leaves every offset where it was. |
| `Fds.FdTable.Close` | kernel/fs/tetfs.c:320-323 | Frees that descriptor alone; any other number does nothing. |
| `Sessions.ReadThroughFs` | kernel/fs/tetfs.c:307-313 | As for vfs_read, of successive fs_read calls on one descriptor between calls of anyone else: the content from its offset on, as far as they ask. |
| `Fds.ReadAfterWrite` | kernel/fs/tetfs.c:307-318 | After a write the next read finds nothing where vfs_write leaves the offset, and finds bytes of the new content where fs_write leaves it iff the old offset is inside them. |
| `HeapSpec.LiveApart` | kernel/heap/heap.c:24-54 | Blocks that tile the heap lie inside it and are pairwise disjoint, headers included. |
| `HeapSpec.MallocStep` | kernel/heap/heap.c:24-43 | kmalloc returns NULL iff no free block is large enough; otherwise one new live block of size to size + 32 bytes, every other live block where it was, and the tiling kept. |
| `HeapSpec.FreeStep` | kernel/heap/heap.c:45-54 | kfree takes exactly its block out of the live ones and keeps the tiling. |
| `HeapSpec.MallocExact` | kernel/heap/heap.c:24-43 | kmalloc takes the lowest free block that is large enough, cut behind size iff more than 32 bytes are left over, and changes no other block. |
| `HeapSpec.FreeExact` | kernel/heap/heap.c:45-54 | kfree makes its block free, joined with the block behind it if that is free, and changes no other block. |
| `HeapSpec.UsedBytesCount` | kernel/heap/heap.c:56-64 | heap_used_bytes is 0 at first, grows by the block handed out and shrinks by the block given back. |
| `HeapSpec.Conservation` | kernel/heap/heap.c:56-64 | Used payload, free payload and 16 bytes a block add up to 4 MB. |
| `HeapSpec.RunKeepsTiling` | kernel/heap/heap.c:16-54 | Over every run of kmalloc and kfree the blocks tile [0x400000, 0x800000) in address order, and a live block not freed in the run is never moved or resized. |
| `HeapSpec.MallocThenFree` | kernel/heap/heap.c:24-64 | kmalloc then kfree of the result restores the live blocks and heap_used_bytes; the list is the same iff the block was split or had no free block behind, and otherwise differs by that one merge. |
| `HeapSpec.PushPop` | kernel/heap/heap.c:24-54 | On a heap of used blocks before at most one free tail, that is kept by kmalloc, and kfree of the newest block restores the heap exactly. |
| `HeapSpec.NestRestores` | kernel/heap/heap.c:24-54 | So every stack-disciplined nest of calls, of any depth and size, gives back exactly the heap it started from. |
| `HeapSpec.LifoLeavesNoTrace` | kernel/heap/heap.c:24-54 | At every point of a run that frees the newest live block each time, the list is used blocks before at most one free tail, and exactly the list the allocations still live make by themselves. |
| `HeapSpec.BootedTiles` | kernel/heap/heap.c:16-54 | From heap_init the blocks tile the 4 MB in every legal run. |
| `HeapSpec.BootedLifo` | kernel/heap/heap.c:16-54 | From heap_init a last-in-first-out run keeps that shape, and ends with the one free block once all is freed. |
| `HeapSpec.BootedNest` | kernel/heap/heap.c:16-54 | And every nest of calls gives back the heap of heap_init. |
| `Heap.KernelHeap.constructor` | kernel/heap/heap.c:16-22 | One free block of 4 MB less its header. |
| `Heap.KernelHeap.KMalloc` | kernel/heap/heap.c:24-43 | The chain of headers afterwards is the block list first fit with splitting gives, and the pointer is that block's payload. |
| `Heap.KernelHeap.KFree` | kernel/heap/heap.c:45-54 | The chain of headers afterwards is the block list with that block released and merged with a free one behind. |
| `Heap.KernelHeap.UsedTotal` | kernel/heap/heap.c:56-64 | The loop adds up the payload of the used blocks. |
| `Frames.AllocIsSafe` | kernel/pmm/pmm.c:38-47 | A frame handed out is the lowest free one, page aligned, not in use, at or above 0xC00000 and clear of the kernel and the bitmap; 0 iff no frame is free. |
| `Frames.RunIsSafe` | kernel/pmm/pmm.c:19-54 | Over every run that frees only live frames, reserved frames stay reserved and every allocation is what AllocIsSafe says: 0 iff none is free, else the lowest free frame, aligned and outside the reserved part. |
| `Frames.ReservedIs` | kernel/pmm/pmm.c:19-36 | A frame is reserved iff it lies below 0xC00000 or begins below the end of the bitmap behind the kernel. |
| `Frames.FreedIsNext` | kernel/pmm/pmm.c:38-54 | A frame given back with no lower one free is what the next allocation returns. |
| `Frames.AllocCounts` | kernel/pmm/pmm.c:38-47 | An allocation succeeds iff the number of free frames is not 0, and takes one from it. |
| `Frames.FrameAllocator.constructor` | kernel/pmm/pmm.c:19-36 | Exactly the frames below max(kernel end + bitmap, 0xC00000), rounded up, start in use, and the counter agrees with the bits. |
| `Frames.FrameAllocator.Alloc` | kernel/pmm/pmm.c:38-47 | On the 32-bit words: takes the lowest clear bit, and the counter still equals the number of set bits. |
| `Frames.FrameAllocator.Free` | kernel/pmm/pmm.c:49-54 | Clears one bit; counter and bits still agree iff the frame was in use, not reserved, or past the end. |
| `Frames.FrameAllocator.FreeFrames` | kernel/pmm/pmm.c:64-66 | The difference of the counters is the number of free frames. |
| `Frames.FreedTwice` | kernel/pmm/pmm.c:49-54 | A frame handed out and freed twice leaves the counter apart from the bits. |
| `Paging.MapPageEffect` | kernel/vmm/vmm.c:32-47 | Mapping sets the translation of one page in the spaces that share the table, to the frame and with just the access bits asked for, through a table that is writable and open to user mode as asked for if it is new; it fails only for want of a frame, and leaves every other directory slot and translation alone. |
| `Paging.PageEntryGrants` | kernel/vmm/vmm.c:45 | The word of a page is present, points to its frame, and has bit b of 1-11 set iff the flags have. |
| `Paging.DirEntryGrants` | kernel/vmm/vmm.c:32-44 | The word of a table is present and writable, and open to user mode iff it was made for it. |
| `Paging.UnmapEffect` | kernel/vmm/vmm.c:53-62 | Unmapping removes one page from the spaces that share the kernel's table for it and changes no other translation. |
| `Paging.CreateSpaceEffect` | kernel/vmm/vmm.c:64-77 | A new space translates as the kernel does, shares exactly the kernel's tables, and disturbs no other space; it fails only for want of a frame. |
| `Spaces.RunKeeps` | kernel/vmm/vmm.c:32-93 | Over every run of map, unmap, create space and map in a space, a present directory slot never changes and every table the kernel lacks hangs off exactly one directory. |
| `Spaces.InheritedForever` | kernel/vmm/vmm.c:72-77 | A slot a space copied from the kernel translates like the kernel's there in every later state. |
| `Spaces.PrivateMapping` | kernel/vmm/vmm.c:79-93 | Mapping in a slot the kernel lacks changes the translation of that page in that space, to the frame and access asked for, and nothing in any other. |
| `Spaces.Vmm.Init` | kernel/vmm/vmm.c:7-23 | Succeeds iff nine frames are free before the call, takes just those, and leaves the identity on [0, 32 MB), nothing above and tables in the first eight slots alone; with fewer free it has taken them all. |
| `Spaces.IdentityGrants` | kernel/vmm/vmm.c:7-23 | After it every page of the first 32 MB is mapped to itself, present, writable and user. |
| `Spaces.Vmm.MapPage` | kernel/vmm/vmm.c:32-47 | The directory and table words written are those of the abstract mapping in the kernel's space: the page is there with just the flags given, through a table of the kernel's if it is new. |
| `Spaces.Vmm.MapPageInDir` | kernel/vmm/vmm.c:79-93 | The same in a given directory, a new table being open to user mode iff the flags have bit 2. |
| `Spaces.Vmm.UnmapPage` | kernel/vmm/vmm.c:53-62 | Clears one table entry of the kernel's space, if it has the table. |
| `Spaces.Vmm.CreateAddressSpace` | kernel/vmm/vmm.c:64-77 | A fresh frame with the kernel directory's 1024 words in it. |
| `Spaces.Vmm.CopyKernelSpace` | kernel/vmm/vmm.c:72-77 | The 1024-word loop makes the directory equal to the kernel's. |
| `Elf.LoadedMeans` | kernel/exec/exec.c:52-83 | When the pages of a file are in place, vaddr + k reads file[offset + k] for k < filesz and 0 for filesz <= k < memsz, for every segment and every k. |
| `ElfLayout.HeaderReads` | kernel/exec/elf.h:8-23 | Of a file that begins with an ELF header laid out as in elf.h the loader reads entry, phoff, phentsize and phnum. |
| `ElfLayout.MagicIs` | kernel/exec/elf.h:6 | The magic number is 0x7F E L F in the first four bytes. |
| `ElfLayout.SegmentReads` | kernel/exec/elf.h:25-34 | Of a program header anywhere in the file it reads kind, offset, vaddr, filesz and memsz. |
| `Elf.HeldIsAccessible` | kernel/exec/exec.c:80-81 | A page of the program that is in place is present, writable and user in the table and in the directory. |
| `Elf.PutPageEffect` | kernel/exec/exec.c:64-82 | One turn of the page loop puts the page in place, or has used the last frame; every other page and every other space stays as it was. |
| `Budget.PutPageCounts` | kernel/exec/exec.c:64-82 | Each turn of the page loop costs one frame and one more if the space has no table for the slot: after any number of turns the free frames are exactly so many less, or were too few and are gone. |
| `Budget.NewSpaceCost` | kernel/exec/exec.c:41 | In a space just created, a file takes the frames of its budget but the one of the directory. |
| `Elf.PageMissedIff` | kernel/vmm/vmm.c:83-92 | After such a turn the page is missing, with nothing mapped there, iff its frame was the last one and the space had no table for it. |
| `Loader.FillAndMap` | kernel/exec/exec.c:65-82 | The frame cleared, filled and mapped in memory does that; it fails iff no frame is left, and the page is in place iff the space had a table for it or a second frame was left. |
| `Loader.LoadSegment` | kernel/exec/exec.c:52-84 | -11 iff the segment reaches past the file, -9 iff it does not and the frames free before the call do not last for its pages; otherwise all of them are in place. |
| `Loader.MapStack` | kernel/exec/exec.c:85-93 | 0 iff the frames before the call covered the segments and one more, else -12; the stack page is in place if they covered its table too, and otherwise nothing is mapped there. |
| `Loader.LoadImage` | kernel/exec/exec.c:52-93 | Success iff the segments lie in the file and the frames free before the call cover the pages, the missing tables for them and one frame for the stack; all segments are then in place, and the stack page iff its table was covered too, in a new space for the program to read and write. Each error code and the frames left free are determined before the call; other spaces are never disturbed. |
| `Exec.BufferApartFromFrames` | kernel/exec/exec.c:65-75 | No frame the loader fills overlaps a heap block, so the file's buffer stays as read. |
| `Exec.BufferTaken` | kernel/exec/exec.c:19-20 | Allocating the file's buffer keeps every process on its own live stack, none of them the buffer. |
| `Exec.BufferGiven` | kernel/exec/exec.c:106 | Freeing it takes no process's stack away. |
| `Exec.Kernel.FindProgram` | kernel/exec/exec.c:11-16 | -2 iff no such file is in the root directory, -3 iff it is shorter than an ELF header, otherwise its inode. |
| `Exec.Kernel.CheckHeader` | kernel/exec/exec.c:31-39 | -6 iff the magic number is missing, -7 iff it is there and the 32-bit end of the program header table is past the file, for any header. |
| `Exec.Kernel.BuildSpace` | kernel/exec/exec.c:41-93 | A new space with the image in it iff the segments lie in the file and 1 + pages + their table slots + 1 frames are free before the call, with the stack page iff its slot is covered too; every error code and the frames left are those determined before the call; no earlier space disturbed. |
| `Exec.Kernel.StartProcess` | kernel/exec/exec.c:95-104 | A ready user process next in the ring, in the new space, that resumes at the entry in ring 3 with its stack pointer at 0x8000000, the end of its stack page, on a kernel stack of its own; -10 and no change iff no slot or stack is to be had. |
| `Exec.Kernel.RunFile` | kernel/exec/exec.c:31-108 | From the magic number on, the result and the frames left free are functions of the file, the frames and directories, and the process table before the call; no process on failure. |
| `Exec.Kernel.ExecFile` | kernel/exec/exec.c:16-108 | The buffer is given back on every path: a failure leaves processes and live blocks as they were, a success adds one process and one stack. |
| `Exec.Kernel.ExecElfFromDisk` | kernel/exec/exec.c:10-108 | From a name on disk to a process whose space holds what the program headers of that file say, for it to read and write, with the stack page iff the frames free before the call cover the full budget, its stack pointer at 0x8000000 and no other space disturbed. The exact result, and the frames left free after it, are functions of the disk, the frames and directories, and the process table before the call. |
| `Exec.StartsIff` | kernel/exec/exec.c:10-108 | A program starts iff a file of that name is long enough, a buffer is to be had, the magic number is there, the header table and all segments lie in the file, the free frames reach its budget, and a slot and a stack are left. |
| `ExecCodes.ResultMeans` | kernel/exec/exec.c:10-108 | What each result stands for: -2, -3, -4, -5, -6, -7, the code of the space, -10 or the next pid, each by a condition on the disk, the heap and the process table. |
| `ExecCodes.SpaceCodeMeans` | kernel/exec/exec.c:41-93 | -8 without a free frame, -9 when the free frames do not last to the first segment outside the file, -11 when they do and there is one, -12 when there is none and no frame is left for the stack. |
| `Loader.LeavesInNewSpace` | kernel/exec/exec.c:41-93 | The frames a call leaves free, by its result: the full budget less on success or without a process slot, what comes before the bad segment less on -11, none on -8, -9 and -12. |
| `FewFrames.StartsWithoutStack` | kernel/exec/exec.c:85-108 | A run from pmm_init, vmm_init, process_init and a formatted disk with a file of 52 bytes: with two frames left exec returns a pid, and nothing is mapped under the stack pointer of the new process. |
| `FewFrames.LosesFrame` | kernel/exec/exec.c:41-93 | The same run with one frame left: exec returns -12, the process table is as it was, and no frame is free. |
| `SchedSpec.RunKeeps` | kernel/process/process.c:68-281 | Over every run of create, fork, exit, kill of a non-head process, tick, and kmalloc and kfree by the rest of the kernel: one ring of distinct slots with distinct pids that contains run_queue, nobody but the current process running, every other member on its own live stack of 4096 bytes. |
| `SchedLaws.EventActs` | kernel/process/process.c:68-307 | What each event of such a run does. |
| `SchedLaws.CreateAdds` | kernel/process/process.c:68-185 | A creation is refused, without change, iff slots 1-15 are in use or no free block has 4096 bytes; otherwise the new process, in the lowest free slot, with the next pid and a new stack, stands behind the current one and all others are as before. |
| `SchedLaws.KillRemoves` | kernel/process/process.c:194-219 | -2 iff the pid is the current one, -1 iff nobody has it, without change; otherwise 0, no process of the ring has that pid, its stack is free, and the others are in the same order as they were. |
| `SchedLaws.TickMoves` | kernel/process/process.c:221-281 | A tick, place by place: counted, or the next ready process in front and the last one ready behind all the others; one that has exited gone, its stack free and run_queue moved on iff it pointed to it. |
| `SchedLaws.FullQuantum` | kernel/process/process.c:257-280 | A process just switched to keeps the processor for four more ticks, whatever happens but its own exit; the fifth takes it away iff some other process is ready. |
| `SchedSpec.CreateKeeps` | kernel/process/process.c:68-185 | The new process gets a stack that belongs to nobody else. |
| `SchedSpec.RemoveKeeps` | kernel/process/process.c:16-32 | Taking a process out frees its stack and no other's. |
| `SchedSpec.ReleaseKeeps` | kernel/heap/heap.c:45-54 | kfree of a block that is no stack takes no process's stack away. |
| `SchedSpec.BootedInv` | kernel/process/process.c:41-66 | The state after process_init satisfies the invariant. |
| `SchedTable.ReprIsRing` | kernel/process/process.c:128-130 | The next pointers of the slots in use form one cycle through exactly those slots. |
| `SchedTable.HeadKillBreaksRing` | kernel/process/process.c:202-217 | Clearing the slot of a killed run_queue head leaves its predecessor pointing at it: the slots in use then form no ring at all. |
| `SchedTable.HeadWaits` | kernel/process/process.c:194-219 | One creation and five ticks after process_init, run_queue points to a process that is not the current one, so that its kill is accepted and is that case. |
| `Scheduler.Processes.constructor` | kernel/process/process.c:41-66 | Slot 0 is the running shell on the boot stack, every other slot unused. |
| `Scheduler.Processes.Create` | kernel/process/process.c:68-185 | In the table: the lowest unused slot but 0, linked in behind the current process, with a frame that resumes at the entry, for a user with the esp given and selectors 0x1B and 0x23, for the kernel at the end of its stack with 0x08 and 0x10; -1 iff no slot or stack is left. |
| `Scheduler.Processes.ForkStub` | kernel/process/process.c:298-307 | A creation, with its refusals, whose process is a zombie from the start. |
| `Scheduler.Processes.Exit` | kernel/process/process.c:187-188 | Only the state of the current process changes. |
| `Scheduler.Processes.Kill` | kernel/process/process.c:194-219 | -2 iff the pid is the current one, -1 iff nobody has it; otherwise that process is gone, its stack is free and the others stand as they were, if it is not the one run_queue points to; if it is, its slot is cleared and no ring is left. |
| `Scheduler.Processes.Search` | kernel/process/process.c:202-210 | The do-while stops within one round, at the process of that pid iff there is one, with prev its predecessor unless it is the head. |
| `Scheduler.Processes.Unlink` | kernel/process/process.c:213-217 | The pointer writes, with the slot itself as prev when the target is the head, and the reset of the slot. |
| `Scheduler.Processes.Reset` | kernel/process/process.c:16-32 | The slot is cleared and its stack, if any, freed. |
| `Scheduler.Processes.Schedule` | kernel/process/process.c:221-281 | The table after a tick is that of the abstract tick, and the switch words are set exactly when another process was chosen. |
| `Scheduler.Processes.Reap` | kernel/process/process.c:227-254 | A dead current process is unlinked, its stack freed and the next ready process switched to; with none ready it runs on. |
| `Scheduler.Processes.Preempt` | kernel/process/process.c:262-280 | The frame is saved, the current process made ready and the next ready one made running; with no other it runs on. |
| `Scheduler.Processes.FindCandidate` | kernel/process/process.c:267-269 | The scan ends, at the first ready process in ring order or back at the current one. |
| `Scheduler.Processes.FindLast` | kernel/process/process.c:232-233 | The scan ends, at the predecessor of the current process. |
| `SchedWait.TickProgress` | kernel/process/process.c:221-281 | Each tick either runs a waiting ready process or brings it strictly nearer. |
| `SchedWait.OtherProgress` | kernel/process/process.c:187-307 | Exits, forks and kills of others never set it back. |
| `SchedWait.BoundedWaiting` | kernel/process/process.c:221-281 | While no ready process is created, a ready process with r ready ones ahead runs within 5(r + 1) ticks, whatever exits, kills, forks and zombies intervene. |
| `SchedExit.ExitThenTick` | kernel/process/process.c:227-254 | The tick after an exit takes the process out of the ring and frees its stack iff some other process is ready; with none ready it is Running again and nothing else has changed. |
| `SchedExit.ShellRunsOn` | kernel/process/process.c:238-240 | For one, the shell alone after process_init: exit and tick give back the state of process_init. |
| `SchedExit.StaysForGood` | kernel/process/process.c:187-307 | Nothing but its own exit while others are ready, or a kill, takes a process out: one made Running after its exit, or forked as a zombie, is in the ring in every later state. |
| `Context.SaveFrame` | kernel/isr/isr_stub.asm:116-127 | The interrupt and the pushes leave exactly the words of the frame, from which the registers that were interrupted resume, and write nowhere else. |
| `Context.RestoreFrame` | kernel/isr/isr_stub.asm:134-157 | The pops, popa, add and iret consume a 14-word kernel or 16-word user frame exactly and resume the registers in it. |
| `Context.BuildFrame` | kernel/process/process.c:110-179 | The frame made up for a new process resumes at its entry, with the stack pointer and selectors of the mode asked for, and lies inside its stack. |
| `Context.StartsInterruptible` | kernel/process/process.c:110-113 | A new process starts at its entry with IF set and zero registers: a program with esp as given, cs 0x1B, ds and ss 0x23; a kernel process with esp at the end of its stack, cs 0x08, ds and ss 0x10. |
| `Stacks.StacksApart` | kernel/process/process.c:81-86 | The stacks of any two processes, the boot stack included, do not overlap. |
| `Stacks.StackOffTss` | kernel/gdt/gdt.c:33-34 | None of them overlaps the stack of the TSS. |
| `Stacks.NewStackApart` | kernel/process/process.c:81-82 | A stack just allocated overlaps neither. |
| `Switching.SpawnKeeps` | kernel/process/process.c:68-185 | A creation writes its own new stack and no frame that any process waits on. |
| `Switching.IrqIntegrity` | kernel/isr/isr_stub.asm:115-157 | A tick that does not switch is invisible. One that does goes to the chosen process at a frame address that is never 0, under its own directory or the kernel's, with exactly the registers it last left with if its frame is on its own stack, and otherwise iff its frame on the stack of the TSS is still what it was. |
| `Switching.ContextIntegrity` | kernel/process/process.c:249-280 | Over every interleaving of computation, system calls, ticks, creations, forks, exits and kills, all of that holds up to a tick that resumes a process from an overwritten frame on the stack of the TSS, and fails only by such a tick. |
| `SharedStack.NothingLost` | kernel/gdt/gdt.c:33-34 | In every run in which no process uses the part of the stack of the TSS where another one waits, every process always resumes with the registers it left with. |
| `SharedStack.TickIff` | kernel/isr/isr_stub.asm:115-157 | A tick from any mode, on any stack, is sure to leave a waiting process its registers iff every word of its frame that the restore uses is outside the area written, or is in the new frame with the value it has. |
| `SharedStack.UserTickIff` | kernel/isr/isr_stub.asm:115-129 | For a tick in user mode that is: its frame is not on the part of the stack of the TSS the tick writes, or holds the very registers interrupted. |
| `SharedStack.WorkIff` | kernel/gdt/gdt.c:33-34 | System calls that use the stack of the TSS down to some address are sure to leave it its registers iff its frame is clear of that part. |
| `SharedStack.SecondOverwritesFirst` | kernel/gdt/gdt.c:33-34 | Of two programs preempted in user mode, the second one's tick puts its registers in the first one's frame, and the first is resumed with them. |
| `SharedStack.BootMInv` | kernel/process/process.c:41-66 | The machine after process_init satisfies the invariant of these runs. |
| `TwoPrograms.TwoProgramsClash` | kernel/process/process.c:135-281 | A run from boot of two creations and twenty ticks at whose end the first program goes on at the second one's entry point. |
| `Stub.TakeSwitch` | kernel/isr/isr_stub.asm:134-147 | The two switch words are read, acted on and cleared. |
| `Stub.IrqCommonStub` | kernel/isr/isr_stub.asm:115-157 | The whole stub around schedule, on the process table and stacks in memory and whatever the handler leaves below the frame, does exactly one tick of the machine. |
| `Mutex.StepKeeps` | kernel/ipc/ipc.c:9-59 | Every single access by any process keeps the invariant. |
| `Mutex.RunKeeps` | kernel/ipc/ipc.c:9-59 | So does every interleaving of any number of processes. |
| `Mutex.MutualExclusion` | kernel/ipc/ipc.c:27-59 | At most one process in the guard, at most one between lock and unlock, owner_pid names it, and waiter_count is at most 16, in every reachable state. |
| `MutexCalls.EntersGuard` | kernel/ipc/ipc.c:9-13 | The test-and-set at the start of both calls enters the guard iff nobody is inside, and otherwise changes nothing. |
| `MutexCalls.TakesFree` | kernel/ipc/ipc.c:31-38 | A process that finds the mutex free is between lock and unlock after its next four steps, whatever the others do meanwhile, with the mutex locked and itself the owner. |
| `MutexCalls.QueuesBehind` | kernel/ipc/ipc.c:41-46 | One that finds it taken is put behind those waiting iff fewer than 16 wait, changes nothing else, leaves the guard and halts. |
| `MutexCalls.UnlockFrees` | kernel/ipc/ipc.c:49-59 | An unlock ends with the mutex free and no owner; if some wait, the count is one less and they have moved down by one. |
| `Pipe.PipeBuffer.Read` | kernel/ipc/ipc.c:69-81 | min(len, size) bytes, the oldest first, leave the pipe for the front of the buffer; write_idx stays (read_idx + size) mod 256. |
| `Pipe.PipeBuffer.Write` | kernel/ipc/ipc.c:83-95 | min(len, 256 - size) bytes enter at the back, in order; the ring equation is kept. |
| `Pipe.Oldest` | kernel/ipc/ipc.c:74-78 | Moving read_idx on takes the oldest byte off the contents, across the wrap of the ring. |
| `Pipe.Newest` | kernel/ipc/ipc.c:88-92 | Storing at write_idx appends to the contents and overwrites none of them, across the wrap of the ring. |
| `Pipe.Fifo` | kernel/ipc/ipc.c:69-95 | Over every sequence of whole reads and writes, the bytes delivered and then the bytes in the pipe are the bytes accepted, in order. |
| `PipeSteps.StepKeeps` | kernel/ipc/ipc.c:69-95 | Every single statement of pipe_read or pipe_write, by any of any number of processes, keeps the invariant: one holder of the lock at most, its call part way through from the contents it found, and the history of released calls. |
| `PipeSteps.LinearizesToCalls` | kernel/ipc/ipc.c:13-95 | Over every interleaving of those statements, whenever the lock is free the pipe, the bytes delivered and accepted and what each call returned are those of the calls served whole in the order in which they released the lock; so each moves as many bytes as it can, first in, first out. |
| `PipeCalls.CallGetsDone` | kernel/ipc/ipc.c:69-95 | A call that finds the lock free is at its release after 4 n + 2 of its own steps, whatever the others do meanwhile, having moved n bytes: as many as asked for or there are, or as given or fit. |
| `Line.PixelsFollowLine` | kernel/graphics/graphics.c:284-304 | Pixel k is within half a pixel of the ideal line on the minor axis and inside the end points' box; the first and last are the end points. |
| `Line.FitsWhen` | kernel/graphics/graphics.c:285-302 | All the loop computes fits an int when three times the longer side does, and for a horizontal or vertical line iff twice the side does. |
| `Line.NearIsUnique` | kernel/graphics/graphics.c:293-302 | Only one pixel in each step along the longer side is that near. |
| `Line.OneMore` | kernel/graphics/graphics.c:294-302 | The two error tests take each pixel of the line to the next, with 2 * err at most three times the longer side. |
| `Line.Pens` | kernel/graphics/graphics.c:284-304 | The loop visits max(dx, dy) + 1 positions, the pixels of the line in order, and only the last is the end point. |
| `Line.Screen.SetPixel` | kernel/graphics/graphics.c:235-239 | One pixel of the picture changes, or none if it is off the screen. |
| `Line.Screen.Walk` | kernel/graphics/graphics.c:291-303 | The loop plots the positions of the line one after another and stops at the last, with 2 * err and err - dy inside an int throughout. |
| `Line.Screen.DrawLine` | kernel/graphics/graphics.c:284-304 | For differences whose loop values fit an int, the loop ends, and the picture afterwards is the one before with exactly the pixels of the rounded line in the new colour. |
| `WindowSpec.BoundedIsNearest` | kernel/wm/wm.c:162-181 | Bounding gives a rectangle in the work area, the same one iff it was there already, with the nearest size and then the nearest place. |
| `WindowSpec.ToggleTwice` | kernel/wm/wm.c:348-369 | Maximizing fills the work area; toggling again gives back the exact rectangle iff it was in the area. |
| `WindowSpec.MaximizeRestores` | kernel/wm/wm.c:348-369 | So it does after any run that leaves the window maximized, whatever else happens to it or to the taskbar, up to what the work area of that moment demands. |
| `WindowSpec.ButtonsInTitle` | kernel/wm/wm.c:129-151 | The two buttons of a visible window lie in its title bar and do not overlap. |
| `WindowSpec.TopmostIs` | kernel/wm/wm.c:153-160 | The window found contains the point and none above it does; NULL iff none does. |
| `WindowSpec.RaisedMovesOne` | kernel/wm/wm.c:106-114 | Focusing moves one window to the tail and keeps the others in order. |
| `WindowSpec.PressGrabs` | kernel/wm/wm.c:386-406 | A press on a title bar raises, focuses and grabs that window without moving it, and alters no other. |
| `WindowSpec.DragIsPathFree` | kernel/wm/wm.c:424-428 | Wherever the pointer went meanwhile, a dragged window is where its whole way from the grab takes it, held inside the work area; every other window is as before. |
| `WindowSpec.StepKeeps` | kernel/wm/wm.c:250-432 | Every call and mouse event keeps the windows distinct and in the work area, the focus NULL or on the tail, and a drag only while the button was last seen down. |
| `WindowSpec.RunKeeps` | kernel/wm/wm.c:250-432 | So does every run of them. |
| `WindowSpec.StartedKeeps` | kernel/wm/wm.c:231-248 | In particular every run from wm_init. |
| `WindowSpec.UpdateIsRun` | kernel/wm/wm.c:379-432 | Draining the event queue is a run of single events. |
| `WindowLaws.ButtonsAt` | kernel/wm/wm.c:124-151 | Where the two buttons and the title bar are, in pixels. |
| `WindowLaws.CreateAdds` | kernel/wm/wm.c:250-269 | A new window is on top with the focus, visible and not maximized, as near as can be to the rectangle asked for, 120 or 80 standing for 0. |
| `WindowLaws.DestroyTakesOff` | kernel/wm/wm.c:271-277 | It leaves the list, and the focus and the drag if it had them; the others stay as they were. |
| `WindowLaws.HideConceals` | kernel/wm/wm.c:280-285 | It is not visible and loses the focus and the drag. |
| `WindowLaws.CallChangesOne` | kernel/wm/wm.c:279-369 | Show, move, resize, maximize and setting the handlers change just those fields of the one window. |
| `WindowLaws.FocusRaises` | kernel/wm/wm.c:106-114 | The window goes to the top and has the focus; NULL takes the focus away. |
| `WindowLaws.ReserveRefits` | kernel/wm/wm.c:320-325 | Every window is moved into the new work area, and nothing else of it changes. |
| `WindowLaws.MouseAlone` | kernel/wm/wm.c:382-431 | Motion without a drag changes nothing, letting go ends the drag where it is, a press where no window is only counts as one. |
| `WindowLaws.HeldMoves` | kernel/wm/wm.c:424-428 | A held window goes where the pointer is less the offset of the grab, as near as the work area lets it. |
| `WindowLaws.PressActs` | kernel/wm/wm.c:386-414 | A press raises and focuses the topmost window at the point; the close button hides it, the other button maximizes or restores it, the rest of the title bar grabs it unless it is maximized, and no other window changes. |
| `Windows.WindowManager.Detach` | kernel/wm/wm.c:90-96 | The pointers form the same list without that window. |
| `Windows.WindowManager.AttachTail` | kernel/wm/wm.c:98-104 | The pointers form the same list with that window at its end. |
| `Windows.WindowManager.FocusInternal` | kernel/wm/wm.c:106-114 | The list in memory is the one with that window raised, and it has the focus; NULL only drops the focus. |
| `Windows.WindowManager.FindTopmost` | kernel/wm/wm.c:153-160 | Walking prev from the tail finds the topmost visible window at the point. |
| `Windows.WindowManager.ApplyBounds` | kernel/wm/wm.c:162-181 | The window's rectangle becomes the bounded one and nothing else of it changes. |
| `Windows.WindowManager.CreateWindow` | kernel/wm/wm.c:250-269 | A fresh window on top with the focus, its rectangle bounded; nothing without memory. |
| `Windows.WindowManager.DestroyWindow` | kernel/wm/wm.c:271-277 | The window leaves the list, the focus and the drag; the others stay as they were. |
| `Windows.WindowManager.HideWindow` | kernel/wm/wm.c:280-285 | Invisible, and neither focused nor dragged. |
| `Windows.WindowManager.ShowWindow` | kernel/wm/wm.c:279 | The window becomes visible. |
| `Windows.WindowManager.SetOps` | kernel/wm/wm.c:310-315 | Whether the window has a close handler. |
| `Windows.WindowManager.SetPosition` | kernel/wm/wm.c:290-296 | The one rectangle moved and bounded. |
| `Windows.WindowManager.SetSize` | kernel/wm/wm.c:298-304 | The one rectangle resized and bounded. |
| `Windows.WindowManager.SetReservedBottom` | kernel/wm/wm.c:320-325 | Every window bounded by the new work area. |
| `Windows.WindowManager.MaximizeToggle` | kernel/wm/wm.c:348-369 | The window's fields become those of the toggled one. |
| `Windows.WindowManager.PressWindow` | kernel/wm/wm.c:392-414 | Close, maximize and grab, by the part of the window that was hit. |
| `Windows.WindowManager.HandleEvent` | kernel/wm/wm.c:382-431 | One event: press, release and drag in this order, as specified. |
| `Windows.WindowManager.UpdateAll` | kernel/wm/wm.c:379-432 | All waiting events, in order, with the invariant kept. |

## Left out

- Loader.LoadImage: for files whose segments share pages, are not page aligned, wrap around 32 bits or use a directory slot of the kernel, the code makes no promise, and `Elf.WfElf` excludes them.
- Loader.LoadSegment: the same files are excluded, for the same reason.
- Exec.Kernel.ExecElfFromDisk: nor for a file with the magic number whose header table wraps around 32 bits or has entries shorter than 32 bytes; `Exec.Sound` excludes those. What the header tests return for them is in `Exec.Kernel.CheckHeader`.
- Exec.Kernel.ExecFile: excludes the same files as `Exec.Kernel.ExecElfFromDisk`.
- Exec.Kernel.RunFile: excludes the same files as `Exec.Kernel.ExecElfFromDisk`.
- Loader.FillAndMap: the program's frame is filled from a copy of the file's bytes; that the buffer they come from is not overwritten meanwhile is `Exec.BufferApartFromFrames`.
- Frames of physical memory hold either the words of a table or the bytes of a page; the byte layout of table words, TLB maintenance and `invlpg` are not modelled.
- Frames.FrameAllocator.Free: never called by the rest of the code that is modelled; address spaces are never torn down in the source either.
- SchedSpec.RunKeeps: kill is restricted to processes other than the one run_queue points to, where the code breaks the ring.
- Scheduler.Processes.Kill: the tests for a NULL run_queue or current process, and the second test for the current process, are never taken after `process_init` and are not in the body.
- Names and descriptor arrays of processes, and PROC_BLOCKED, which nothing sets, are not modelled.
- Switching.ContextIntegrity: nothing is claimed after a process has been resumed with registers that are not its own; interrupts other than the timer's, which switch to no other process, count as computation; segment registers other than ds are not modelled.
- Mutex.MutualExclusion: that a waiter gets the mutex in the end is not stated; the code removes the oldest entry whoever it is.
- Windows.WindowManager.CreateWindow: whether kmalloc finds memory is a parameter; the id, title and colour of the window are left out.
- Windows.WindowManager.DestroyWindow: the kfree of the window is not modelled.
- Windows.WindowManager.SetOps: of the handlers only the presence of a close handler is kept.
- Windows.WindowManager.HandleEvent: click handlers are not called on press or release.
- Windows.WindowManager.PressWindow: click and draw handlers are code outside the window manager and are not modelled; a close handler hides its window, as all of those in kernel/desktop/desktop.c do. The `dragging` flag of a window is left out.
- Windows.WindowManager.ApplyBounds: the branches for a screen of size zero are not modelled.
- The window's fields other than its links are kept in one record, `Info`; the code assigns them one by one.
- `tetfs_list` and `tetfs_count_children`: easy loops that no other property needs. `free_blocks` of the superblock is never maintained by the code.
- Disk failure, crashes between sector writes, drivers (ATA, PS/2, PIC, PIT, VGA, VBE, serial), boot code, system calls, libc, shell, desktop and fonts: hardware plumbing and user interface.
