# A verified model of a RISC-V teaching kernel's core

This project models, in Dafny, the table-driven core of a small RISC-V
teaching kernel (an Sv39 kernel that runs on the QEMU `virt` machine) and
proves what its code does. The kernel's components are modelled each in its
own module:

- **Common**: byte helpers, little-endian words and the symbolic error codes
  (`Errno`) the kernel returns as negative numbers.
- **KfsLayout / KfsData**: the on-disk layout of the flat file system:
  - the boot block is the directory of 63 64-byte entries;
  - there is one inode per block, with a length and 1023 data-block indices;
  - data blocks follow the inodes;
  - decode and encode functions over 4096-byte blocks;
  - the read and patch-in-place write over a disk of blocks.
- **KfsTable**: the second file-system version. It has a fixed table of 16
  file descriptors (mount, open, close, read, write without growth, ioctl).
- **KfsList**: the first file-system version. Its descriptors form a list
  with new ones prepended, and its write grows a file by allocating data
  blocks and writing the boot block and inode first.
- **VirtioBlock**: the VirtIO block driver:
  - open and close;
  - position and size arithmetic;
  - block-by-block read and write with one outstanding request;
  - the ioctls and the ISR's acknowledgement.
- **Memory**:
  - the physical page allocator, a LIFO free list;
  - the Sv39 three-level page tables (address-space tags, map, set flags,
    reclaim, unmap);
  - the user pointer and string validators;
  - the page-fault handler.
- **ProcessTable**: the process manager (init, exit, terminate, the control
  skeleton of exec).
- **TrapCause**: the exception dispatch, as a function from cause code to
  action.
- **Syscall**: the system-call handler, the dispatch and the descriptor
  calls over a process's I/O table.
- **Elf**: the ELF64 loader: header checks, the program-header loop, and
  zero-fill and copy into the user window.
- **RingBuffer / Serial / SerialCp1**: the serial ring buffer of 64 slots
  with free-running 16-bit counters, and the two interrupt-driven UART
  drivers built on it. The first version's `rbuf_full` differs.
- **Plic**: the platform-level interrupt controller's register arithmetic
  over a map from address to 32-bit word.
- **Timer**: the machine timer's tick counters and compare register.

Where the source updates state in place, the model is a class whose methods
have `modifies` clauses. Examples are the descriptor table, the device
record, the page allocator and page tables, the process and I/O tables, the
ring buffers, the PLIC registers and the timer. Loops are `while` loops
proved against specification functions. Pure code (layouts, decoders,
address arithmetic, the trap classifier, the header checks) is functions
and lemmas.

Some operations have a defect listed under Findings. Each of them takes a
`fixed` (or `checked`) flag: `false` selects the code as written and `true`
selects the corrected behaviour. Lemmas exhibit the defect for `false` and
prove the intended property for `true`.

## Model

| member | source | states |
|---|---|---|
| Common.LE32 | mp3/cp2/src/kern/kfs.h:48-51 | a uint32_t field read from disk is below 2^32 and is its low 16-bit half plus 2^16 times its high half |
| Common.LE64 | mp3/cp1/src/kern/elf.c:53-60 | a uint64_t field is below 2^64; its low and high 32-bit words are the two 32-bit fields it is made of |
| Common.EncodeDecodeLE32 | mp3/cp2/src/kern/kfs.h:48-51 | loading the four bytes a 32-bit store wrote gives the stored value back |
| Common.LE32Local | mp3/cp2/src/kern/kfs.h:48-51 | a 32-bit load depends only on the four bytes it reads |
| Common.PutLE32 | mp3/cp2/src/kern/kfs.h:33-40 | storing a word into a block changes exactly those four bytes, and a load there reads the word |
| KfsLayout.CName | mp3/cp2/src/kern/kfs.c:484-486 | the name strcmp compares, for a field holding a NUL: the bytes before the first NUL, none of them NUL; a field without one is cut at its 32 bytes, where strcmp reads on |
| KfsLayout.DecodeEntry | mp3/cp2/src/kern/kfs.h:27-31 | a directory entry is a 32-byte name and a 32-bit inode number |
| KfsLayout.DecodeBootBlock | mp3/cp2/src/kern/kfs.h:33-40 | the boot block's three counters are the 32-bit words at offsets 0, 4 and 8, followed by 63 entries |
| KfsLayout.BootBlockLayout | mp3/cp2/src/kern/kfs.h:27-40 | the packed entries tile the block: entry i's name is the 32 bytes at 64 + 64 i, and the last inode field ends 28 bytes before the block's end |
| KfsLayout.DecodeInode | mp3/cp2/src/kern/kfs.h:48-51 | an inode is its 32-bit length followed by 1023 32-bit data-block numbers at offsets 4 + 4 i |
| KfsLayout.EncodeWordsAt | mp3/cp2/src/kern/kfs.h:48-51 | word k of a stored array of 32-bit words loads back as element k |
| KfsLayout.EncodeDecodeInode | mp3/cp2/src/kern/kfs.h:48-51 | storing an inode struct and decoding the block gives the same inode |
| KfsLayout.SetDataBlkCount | mp3/cp1/src/kern/kfs.c:304-305 | storing a new data-block count into the boot block changes that counter and no other counter or entry |
| KfsLayout.Wrap32BlkOffset | mp3/cp2/src/kern/kfs.c:221 | the block a 32-bit product `data_blk * 4096` designates starts at that product taken modulo 2^32 |
| KfsLayout.WriteBlk | mp3/cp2/src/kern/kfs.c:365-366 | writing a block on the disk replaces that block, leaves every other block and the disk's size unchanged, and is dropped beyond the end |
| KfsData.CopyBlockList | mp3/cp2/src/kern/kfs.c:200-205 | the local array holds the inode's first `num_blks` block numbers in order |
| KfsData.CopyOut | mp3/cp2/src/kern/kfs.c:209-235 | the copy loop fills the buffer with exactly the n file bytes from pos onwards, in order |
| KfsData.PatchCopy | mp3/cp2/src/kern/kfs.c:355-362 | the byte-copy loop inside one block yields exactly PatchBlock: the bytes of the block within the write take the buffer's bytes at the same file offsets, the rest stay, and the copied count advances by the bytes of that block |
| KfsData.PatchLoop | mp3/cp2/src/kern/kfs.c:337-368 | the read-patch-write loop leaves the disk as the block-by-block specification WriteRun gives |
| KfsData.WriteRunFrame | mp3/cp2/src/kern/kfs.c:349-368 | disk blocks that none of the written file blocks maps to are unchanged |
| KfsData.WriteRunStores | mp3/cp2/src/kern/kfs.c:349-368 | over distinct blocks on the disk, every file byte in the written range holds the buffer byte for it |
| KfsData.WriteRunReadsBack | mp3/cp2/src/kern/kfs.c:337-368 | after the loop, file bytes pos .. pos + n - 1 hold the buffer |
| KfsData.EntryCount | mp3/cp2/src/kern/kfs.c:484 | the scan covers num_entries entries, cut at the 63 the boot block holds |
| KfsData.FirstNamed | mp3/cp2/src/kern/kfs.c:484-488 | the index found is the first entry whose name matches, and no earlier entry matches |
| KfsData.FindInodeByName | mp3/cp2/src/kern/kfs.c:475-490 | the scan returns the inode of the first matching entry, and num_inodes when no entry matches |
| KfsData.FirstIo | mp3/cp2/src/kern/kfs.c:492-506 | the index found is the first descriptor whose io_intf is the one given, or the table size when none is |
| KfsData.ReadDesc | mp3/cp2/src/kern/kfs.c:173-237 | EIO for an unused descriptor, EINVAL when pos passes size; on success the count is the clamped n, the bytes returned number that count, and pos advances by it |
| KfsData.ReadDescBytes | mp3/cp2/src/kern/kfs.c:200-235 | a successful non-empty read returns the file's bytes from pos onwards |
| KfsData.ReadAfterRun | mp3/cp2/src/kern/kfs.c:240-371 | reading back a span just written, over blocks separated from each other and from the inode, returns the written bytes |
| KfsData.ReadOfStored | mp3/cp2/src/kern/kfs.c:150-238 | a read of a span whose file bytes hold `buf` returns `buf` and advances pos by its length |
| KfsData.ReadFile | mp3/cp2/src/kern/kfs.c:173-237 | fs_read from the descriptor on computes the specification ReadDesc |
| KfsTable.WriteDesc | mp3/cp2/src/kern/kfs.c:264-370 | EIO for an unused descriptor, EINVAL when pos passes size, nothing changed on error or for a zero count; on success the count is n clamped to the size, pos advances by it, and neither the size nor the disk's length changes |
| KfsTable.WriteFile | mp3/cp2/src/kern/kfs.c:264-370 | fs_write from the descriptor on computes the specification WriteDesc |
| KfsTable.WriteThenRead | mp3/cp2/src/kern/kfs.c:150-371 | reading back from the position a write started at returns exactly the bytes written, when the blocks written are distinct, on the disk and apart from the inode |
| KfsTable.IoctlDesc | mp3/cp2/src/kern/kfs.c:396-473 | EBADFD for a free slot; GETLEN, GETPOS and GETBLKSZ store a value and return 0; SETPOS sets pos to the argument clamped to the size; any other command is ENOTSUP; only SETPOS changes the descriptor |
| KfsTable.FirstIdle | mp3/cp2/src/kern/kfs.c:508-522 | the index found is the first descriptor not in use, or the table size when all are in use |
| KfsTable.FileSystem.Mount | mp3/cp2/src/kern/kfs.c:44-73 | EINVAL and no change when the io interface or an operation is missing; otherwise the boot block is cached, the data area starts after the last inode, and every descriptor is zeroed |
| KfsTable.FileSystem.FindFileDescByIo | mp3/cp2/src/kern/kfs.c:492-506 | the loop returns the first slot whose io_intf matches, or 16 |
| KfsTable.FileSystem.FindIdleFileDesc | mp3/cp2/src/kern/kfs.c:508-522 | the loop returns the first slot not in use, or 16 |
| KfsTable.FileSystem.Open | mp3/cp2/src/kern/kfs.c:75-120 | EBADFD for an unknown name and EINVAL when kmalloc fails, changing nothing; otherwise the first idle slot gets the new io_intf, position 0, the inode's length and number, and every other slot is unchanged |
| KfsTable.FileSystem.Close | mp3/cp2/src/kern/kfs.c:122-148 | the slot of io is marked unused and its io_intf cleared; an unknown io changes nothing |
| KfsTable.FileSystem.Read | mp3/cp2/src/kern/kfs.c:150-238 | EBADFD for an unknown io; otherwise the result and the slot's new state are those of ReadDesc, and no other slot changes |
| KfsTable.FileSystem.Write | mp3/cp2/src/kern/kfs.c:240-371 | EBADFD for an unknown io; otherwise the result, disk and slot are those of WriteDesc, and no other slot changes |
| KfsTable.FileSystem.Ioctl | mp3/cp2/src/kern/kfs.c:373-414 | EIO for an unknown io; otherwise as IoctlDesc on its slot |
| KfsList.Junk | mp3/cp1/src/kern/kfs.c:294 | an entry of the uninitialised local block array is a 32-bit word |
| KfsList.GrownSize | mp3/cp1/src/kern/kfs.c:270-277 | the size is kept when the write ends inside the file and raised to pos + n when it ends past it without passing 2^32 |
| KfsList.NewBlockList | mp3/cp1/src/kern/kfs.c:294-320 | the stored list has 1023 32-bit entries, zero from the new block count on, and keeps every old entry the copy loop reaches |
| KfsList.WriteGrow | mp3/cp1/src/kern/kfs.c:264-362 | EIO exactly when the in-use, size or capacity check fails, and then nothing changes; a success returns the whole count and advances pos over it with the grown size; the only other error is EINVAL, which still keeps the grown size |
| KfsList.Commit | mp3/cp1/src/kern/kfs.c:313-362 | after the metadata writes an EINVAL leaves just those writes on disk and the grown size in the descriptor; a success returns the whole count and advances pos over it |
| KfsList.WriteData | mp3/cp1/src/kern/kfs.c:325-362 | an empty write returns 0 and changes nothing; a span past the old block count is EINVAL with nothing changed; otherwise the whole count is returned and pos advances by it |
| KfsList.GrowFile | mp3/cp1/src/kern/kfs.c:264-362 | the body of fs_write after the lookup computes WriteGrow |
| KfsList.GrowChecked | mp3/cp1/src/kern/kfs.c:293-362 | fs_write after its EIO checks computes WriteGrow |
| KfsList.CommitWrite | mp3/cp1/src/kern/kfs.c:313-362 | the metadata writes and the data phase compute Commit |
| KfsList.FinishWrite | mp3/cp1/src/kern/kfs.c:325-362 | the copy loop over the touched blocks computes WriteData |
| KfsList.FillBlockList | mp3/cp1/src/kern/kfs.c:294-320 | the local array's stores and the two copy loops compute NewBlockList |
| KfsList.GrowCounter | mp3/cp1/src/kern/kfs.c:299-305 | after a write that passed its checks the data-block counter is one higher, modulo 2^32, exactly when a block was allocated, and the rest of the directory is unchanged |
| KfsList.BumpCountDecodes | mp3/cp1/src/kern/kfs.c:305 | the in-place increment of the cached boot block raises only the decoded data-block counter, modulo 2^32 |
| KfsList.StoredInode | mp3/cp1/src/kern/kfs.c:315-320 | the inode written back fits the on-disk layout and carries the grown length |
| KfsList.GrowPersistsMetadata | mp3/cp1/src/kern/kfs.c:313-322 | after a write, block 0 holds the cached boot block and the inode block holds the grown inode, when the patched data blocks are neither |
| KfsList.CommitPersistsMetadata | mp3/cp1/src/kern/kfs.c:313-362 | the data phase leaves block 0 and the inode block as the metadata writes left them |
| KfsList.MetaBlocks | mp3/cp1/src/kern/kfs.c:313-322 | the two metadata writes put the boot block at block 0 and the inode at the file's inode block |
| KfsList.WriteDataStores | mp3/cp1/src/kern/kfs.c:325-362 | after a successful data phase over blocks distinct on the disk, every byte of the buffer is stored at its file position through the block list |
| KfsList.StoredThroughAgreeingList | mp3/cp1/src/kern/kfs.c:315-320 | bytes stored through one block list are stored through any list agreeing with it on the blocks the span touches |
| KfsList.StoredListAgrees | mp3/cp1/src/kern/kfs.c:293-320 | the inode written back is at least as long as the write's end and lists the same blocks as the old inode over the span the write touches |
| KfsList.CommitStores | mp3/cp1/src/kern/kfs.c:313-362 | a successful commit leaves the inode block as the metadata write left it and every byte of the buffer at its file position |
| KfsList.CommitThenRead | mp3/cp1/src/kern/kfs.c:150-362 | reading the committed file from the position the write started at returns exactly the bytes written, with pos ending where the write did |
| KfsList.WriteGrowThenRead | mp3/cp1/src/kern/kfs.c:150-362 | after a successful growing write over blocks distinct on the disk and apart from the inode, reading from its starting position returns exactly the bytes written |
| KfsList.NewBlockListLosesIndex | mp3/cp1/src/kern/kfs.c:304-311 | as written, the entry for a newly allocated block holds stack contents, and the allocated index appears only where an old entry or stack contents happen to equal it |
| KfsList.GrowExample | mp3/cp1/src/kern/kfs.c:270-320 | a 96-byte write at the end of a 4000-byte file allocates block 5 but stores the list 7, 0 as written and 7, 5 when corrected |
| KfsList.NewBlockListRecordsIndex | mp3/cp1/src/kern/kfs.c:304-320 | with the index stored after the copy, every old entry is kept and the allocated block is the last entry in use |
| KfsList.IoctlNode | mp3/cp1/src/kern/kfs.c:365-473 | GETLEN and GETBLKSZ answer on any node, GETPOS and SETPOS give EIO on a node not in use, SETPOS only lowers pos to at most the size, other commands are ENOTSUP, and only pos ever changes |
| KfsList.IoctlVersionsAgree | mp3/cp1/src/kern/kfs.c:365-402 | on a node in use both versions of fs_ioctl give the same answer; on one not in use the later version refuses everything while this one still answers GETLEN and GETBLKSZ |
| KfsList.SetPosThenGetPos | mp3/cp1/src/kern/kfs.c:417-460 | GETPOS after SETPOS returns the requested position clamped to the size |
| KfsList.CloseDesc | mp3/cp1/src/kern/kfs.c:123-149 | closing changes only the node found for io, keeps the list's length, and changes nothing for an unknown io |
| KfsList.CloseForgets | mp3/cp1/src/kern/kfs.c:123-149 | after closing, a handle carried by one node is found nowhere |
| KfsList.NotFound | mp3/cp1/src/kern/kfs.c:492-508 | a handle no node carries is not found |
| KfsList.Opened | mp3/cp1/src/kern/kfs.c:70-121 | the new node carries the new io_intf, position 0, is in use, and its size is its inode's length |
| KfsList.FileSystem.Mount | mp3/cp1/src/kern/kfs.c:44-68 | mounting succeeds, leaves the disk alone, caches block 0, empties the list and puts the data area after the inodes |
| KfsList.FileSystem.FindFileDescByIo | mp3/cp1/src/kern/kfs.c:492-508 | the walk from the head returns the first node carrying io |
| KfsList.FileSystem.Open | mp3/cp1/src/kern/kfs.c:70-121 | ENOENT for an unknown name, EINVAL when an allocation fails, both leaving the list alone; otherwise the new node goes to the head and the rest of the list is unchanged |
| KfsList.FileSystem.Close | mp3/cp1/src/kern/kfs.c:123-149 | the list becomes CloseDesc of the old one and nothing else changes |
| KfsList.FileSystem.Read | mp3/cp1/src/kern/kfs.c:151-239 | ENOENT for an unknown io; otherwise the reply and the node's new state are ReadDesc's, and no other node changes |
| KfsList.FileSystem.Write | mp3/cp1/src/kern/kfs.c:241-363 | ENOENT for an unknown io with nothing changed; otherwise disk, boot block and node are WriteGrow's, and no other node changes |
| KfsList.FileSystem.Ioctl | mp3/cp1/src/kern/kfs.c:365-402 | EIO for an unknown io; otherwise as IoctlNode on its node, no other node changing |
| VirtioBlock.SectorOf | mp3/cp1/src/kern/vioblk.c:441-445 | as written the request's sector field is the block number itself |
| Common.Clamp | mp3/cp1/src/kern/vioblk.c:392-395 | the clamped length never exceeds the request and never passes the device's or file's end, and is cut only down to that end (the same cut as mp3/cp2/src/kern/kfs.c:184-189) |
| VirtioBlock.IoctlResult | mp3/cp1/src/kern/vioblk.c:581-715 | success needs a non-NULL argument and returns 0; SETPOS succeeds only for a block-aligned position inside the device and then moves there; nothing else moves the position; a value is stored exactly on a successful query; unknown commands are ENOTSUP |
| VirtioBlock.ReadLoop | mp3/cp1/src/kern/vioblk.c:407-467 | the block loop issues one IN request per block until the first failure and collects the served blocks, as ReadRun, with the sector field as written or converted when corrected |
| VirtioBlock.ReadDevice | mp3/cp1/src/kern/vioblk.c:366-470 | vioblk_read computes ReadResult, with the block number as the sector as written or the converted sector when corrected |
| VirtioBlock.WriteDevice | mp3/cp1/src/kern/vioblk.c:472-579 | vioblk_write computes WriteResult, with the block number as the sector as written or the converted sector when corrected |
| VirtioBlock.WriteLoop | mp3/cp1/src/kern/vioblk.c:516-576 | the block loop issues one OUT request per block carrying the next block of the buffer until the first failure, as WriteBlocks, with the sector field as written or converted when corrected |
| VirtioBlock.ReadRunServed | mp3/cp1/src/kern/vioblk.c:441-466 | a served block contributes its request and its bytes ahead of the rest of the run |
| VirtioBlock.ReadRunStops | mp3/cp1/src/kern/vioblk.c:458-461 | a failed block ends the run with its request issued and nothing copied |
| VirtioBlock.Vioblk.Attach | mp3/cp1/src/kern/vioblk.c:163-304 | the block size offered or 512, size capacity times block size, closed at position 0 |
| VirtioBlock.Vioblk.Open | mp3/cp1/src/kern/vioblk.c:306-331 | EBUSY on an open device with nothing changed; otherwise the device is open with its interrupt line enabled |
| VirtioBlock.Vioblk.Close | mp3/cp1/src/kern/vioblk.c:336-364 | the device ends closed, its interrupt line disabled if it was open, nothing else changing |
| VirtioBlock.Vioblk.Read | mp3/cp1/src/kern/vioblk.c:366-470 | status, bytes, position and requests are ReadResult's, with the sector as written (the block number) or converted when corrected, the medium is untouched, and the position stays block-aligned inside the device |
| VirtioBlock.Vioblk.Write | mp3/cp1/src/kern/vioblk.c:472-579 | status, medium, position and requests are WriteResult's, with the sector as written (the block number) or converted when corrected, and the position stays block-aligned inside the device |
| VirtioBlock.Vioblk.Ioctl | mp3/cp1/src/kern/vioblk.c:581-599 | the reply and position are IoctlResult's and nothing else changes |
| VirtioBlock.Vioblk.Isr | mp3/cp1/src/kern/vioblk.c:601-634 | another line's interrupt is ignored; on its own line the used-buffer and configuration bits of the status are acknowledged, and waiters are woken exactly when a used buffer is notified |
| VirtioBlock.FixedSector | mp3/cp1/src/kern/vioblk.c:441-446 | with sectors converted, block b starts at byte b times the block size |
| VirtioBlock.ReadRunLength | mp3/cp1/src/kern/vioblk.c:407-467 | a read run copies a whole block per served request, at most one per block |
| VirtioBlock.ReadRunFixed | mp3/cp1/src/kern/vioblk.c:407-467 | with sectors converted a read run copies the medium's bytes from its first block on |
| VirtioBlock.ReadFixedReturnsMedia | mp3/cp1/src/kern/vioblk.c:366-470 | with sectors converted, a successful read returns exactly the medium's bytes from the old position, as many as it reports |
| VirtioBlock.BlockRange | mp3/cp1/src/kern/vioblk.c:405-406 | from a block boundary, the first block is the position's and lies at or before the last |
| VirtioBlock.ReadMisplacesBlocks | mp3/cp1/src/kern/vioblk.c:441-445 | as written, a read of the second 4096-byte block returns bytes 512 to 4607 of the medium |
| VirtioBlock.LastBlockInside | mp3/cp1/src/kern/vioblk.c:392-406 | after clamping, the last block of a transfer lies inside the device |
| VirtioBlock.ReadKeepsPositionInRange | mp3/cp1/src/kern/vioblk.c:366-470 | a read moves the position by whole blocks and keeps it inside the device; a successful one reports the bytes copied, which equal the distance moved |
| VirtioBlock.WriteBlocksServed | mp3/cp1/src/kern/vioblk.c:552-575 | a served block stores its chunk and then the rest of the run goes on from the updated medium |
| VirtioBlock.WriteBlocksStops | mp3/cp1/src/kern/vioblk.c:569-572 | a failed or absent block stores nothing and ends the run |
| VirtioBlock.WriteRunLength | mp3/cp1/src/kern/vioblk.c:516-576 | a write run stores a whole block per served request, at most one per block |
| VirtioBlock.WriteRunInside | mp3/cp1/src/kern/vioblk.c:516-576 | with sectors converted, a write run stays inside the medium, and changes nothing when it stores nothing |
| VirtioBlock.WriteRunFixed | mp3/cp1/src/kern/vioblk.c:516-576 | with sectors converted, a write run replaces exactly the bytes from its first block on with the buffer's, as many as it wrote |
| VirtioBlock.WriteFixedStoresBuffer | mp3/cp1/src/kern/vioblk.c:472-579 | with sectors converted, a successful write stores the caller's bytes at the old position, leaves the rest of the medium alone and advances the position by its count |
| VirtioBlock.WriteKeepsPositionInRange | mp3/cp1/src/kern/vioblk.c:472-579 | a write moves the position by whole blocks and keeps it inside the device; a successful one reports the distance moved |
| Memory.Or | mp3/cp2/src/kern/memory.c:767-774 | the OR of two flag sets has each bit set exactly when either has it |
| Memory.LeafFlags | mp3/cp2/src/kern/memory.c:767-774 | a leaf is always valid, accessed and dirty and carries exactly the requested R, W, X, U and G bits |
| Memory.Vpn2 | mp3/cp2/src/kern/memory.c:70 | VPN[2] indexes a 512-entry table |
| Memory.Vpn1 | mp3/cp2/src/kern/memory.c:71 | VPN[1] indexes a 512-entry table |
| Memory.Vpn0 | mp3/cp2/src/kern/memory.c:72 | VPN[0] indexes a 512-entry table |
| Memory.VpnDecomposition | mp3/cp2/src/kern/memory.c:70-72 | the three indices and the page offset recompose every 39-bit address |
| Memory.RoundDown | mp3/cp2/src/kern/memory.c:763-765 | the result is the page boundary at or below the address, less than a page away |
| Memory.RoundUp | mp3/cp2/src/kern/memory.c:747-749 | the result is the page boundary at or above the address, less than a page away |
| Memory.PagePtr | mp3/cp2/src/kern/memory.c:735-737 | a page number gives a page-aligned address |
| Memory.PageNum | mp3/cp2/src/kern/memory.c:739-741 | an address lies inside the page its page number designates |
| Memory.PageNumOfPagePtr | mp3/cp2/src/kern/memory.c:735-741 | page number of page pointer is the identity |
| Memory.WellformedVmaMeansCanonical | mp3/cp2/src/kern/memory.c:700-704 | the arithmetic-shift test holds exactly when bits 63 to 38 are all zero or all one |
| Memory.MakeMtag | mp3/cp2/src/kern/memory.c:282-313 | the satp value built from an ASID and a root page fits 64 bits |
| Memory.MtagRoundTrip | mp3/cp2/src/kern/memory.c:722-733 | the root page, the ASID and the Sv39 mode come back out of a built tag |
| Memory.PpnOf | mp3/cp2/src/kern/memory.c:739-741 | the stored 44-bit page number designates the page holding the address |
| Memory.LeafPte | mp3/cp2/src/kern/memory.c:767-774 | a leaf maps the page holding the address with the leaf flags |
| Memory.PtabPte | mp3/cp2/src/kern/memory.c:776-783 | a table entry is valid, carries only the requested G bit besides V, and points at the page of the table |
| Memory.NullPteIsInvalid | mp3/cp2/src/kern/memory.c:785-787 | the null entry is invalid with a zero flag byte and page number |
| Memory.SetPte | mp3/cp2/src/kern/memory.c:438-451 | an entry store puts the entry in place and leaves the free list alone |
| Memory.SetPteFrame | mp3/cp2/src/kern/memory.c:438-451 | an entry store changes no other entry of any table |
| Memory.ZeroPage | mp3/cp2/src/kern/memory.c:437 | the zeroed page reads as 512 null entries and no other page changes |
| Memory.Alloc | mp3/cp2/src/kern/memory.c:366-385 | allocation succeeds exactly when the list is non-empty, and then returns its head and leaves the rest |
| Memory.FreeThenAlloc | mp3/cp2/src/kern/memory.c:366-402 | freeing a page and allocating again returns that page and restores the memory |
| Memory.Translate | mp3/cp2/src/kern/memory.c:405-454 | a translation that succeeds ends in a valid leaf, the one the unchecked walk reaches |
| Memory.WrapEnd | mp3/cp2/src/kern/memory.c:586 | the loop bound `vp + len` is a 64-bit address, equal to the sum when that does not pass 2^64 |
| Memory.VisitedLen | mp3/cp2/src/kern/memory.c:585-597 | the length the loop covers is the requested one when the sum does not wrap |
| Memory.NoStepWrap | mp3/cp2/src/kern/memory.c:596 | a step of 4096 from an address below the loop bound stays below 2^64 when the bound leaves room for it |
| Memory.VptrLenWraps | mp3/cp2/src/kern/memory.c:585-598 | as written, vp = 0x10000 with len = 2^64 - 0x8000 visits no page and passes on memory with nothing mapped, while the range is not mapped |
| Memory.PageRefused | mp3/cp2/src/kern/memory.c:567-599 | a page in the range whose leaf lacks the flags makes the range check fail |
| Memory.PageAccepted | mp3/cp2/src/kern/memory.c:567-599 | a page whose leaf grants the flags passes the check at every byte |
| Memory.RawLeafOfPage | mp3/cp2/src/kern/memory.c:480-503 | every address of a page walks to the same leaf |
| Memory.VptrLenMissesLastPage | mp3/cp2/src/kern/memory.c:567-599 | as written, a two-byte range straddling a page boundary is accepted while its second byte is unmapped |
| Memory.OneByteVisitsOnePage | mp3/cp2/src/kern/memory.c:601-624 | the one-byte check visits exactly that byte's page |
| Memory.UnmappedStringFailsCheck | mp3/cp2/src/kern/memory.c:601-624 | the empty string on unmapped memory is a C string that fails the documented check |
| Memory.PathDisjointAfterAlloc | mp3/cp2/src/kern/memory.c:366-385 | taking a free page keeps the path's tables distinct from each other and from the free pages |
| Memory.EnsureNextLinks | mp3/cp2/src/kern/memory.c:435-441 | one level of table creation leaves a valid entry pointing at a fresh zeroed table, not free and distinct from the parent, and touches no other table; an existing entry changes nothing |
| Memory.MapLeafTranslates | mp3/cp2/src/kern/memory.c:435-451 | creating the path probing the entry it fills makes the hardware walk reach the stored leaf |
| Memory.MapPageFixedMaps | mp3/cp2/src/kern/memory.c:405-454 | with the level-1 check reading entry vpn1, mapping returns the rounded address, which then translates to the requested flags plus A, D and V, on the page itself below the megapage limit and on the head of the free list above |
| Memory.MapLeafProbeAgrees | mp3/cp2/src/kern/memory.c:444 | the check as written and the intended one agree whenever entry 0 and entry vpn1 of the level-1 table are both valid or both not |
| Memory.MapPageLine444Loses | mp3/cp2/src/kern/memory.c:444-451 | as written, a level-1 table with entry 0 valid and entry vpn1 invalid makes mapping report success while the address still does not translate |
| Memory.PageWalk | mp3/cp2/src/kern/memory.c:405-454 | every address of a page translates as the page's first address does |
| Memory.PageOfWalk | mp3/cp2/src/kern/memory.c:488-493 | an address translates as its rounded-down page address does |
| Memory.SamePageSameSlot | mp3/cp2/src/kern/memory.c:488-493 | the addresses of one page select the same leaf slot |
| Memory.TreePathDisjoint | mp3/cp2/src/kern/memory.c:405-454 | in a well-formed tree the tables on any walk are distinct from each other and from the free pages |
| Memory.TreeTransfer | mp3/cp2/src/kern/memory.c:405-454 | a state with the same root and middle tables and a free list drawn from the old one is still a well-formed tree |
| Memory.RootGrowTree | mp3/cp2/src/kern/memory.c:435-441 | creating a missing middle table keeps the tree well formed and leaves the root entry valid |
| Memory.MidGrowTree | mp3/cp2/src/kern/memory.c:442-449 | creating a missing leaf table keeps the tree well formed, the root table unchanged and the middle entry valid |
| Memory.EnsureAllocKeepsTree | mp3/cp2/src/kern/memory.c:366-385 | taking a page off the free list keeps the tree well formed |
| Memory.LeafTableApart | mp3/cp2/src/kern/memory.c:405-454 | a leaf table reached by a walk is neither the root nor any middle table |
| Memory.LeafStoreKeepsTree | mp3/cp2/src/kern/memory.c:450-451 | storing into a leaf table keeps the tree well formed |
| Memory.LeafStoreKeepsOthers | mp3/cp2/src/kern/memory.c:450-451 | storing into one leaf slot leaves the translation of every address of another slot unchanged |
| Memory.RootGrowKeeps | mp3/cp2/src/kern/memory.c:435-441 | creating a middle table leaves every existing translation unchanged |
| Memory.MidGrowKeeps | mp3/cp2/src/kern/memory.c:442-449 | creating a leaf table leaves every existing translation unchanged |
| Memory.MapPageFixedKeepsTree | mp3/cp2/src/kern/memory.c:405-454 | mapping a page with the corrected level-1 check keeps the tree well formed |
| Memory.MapPageFixedKeepsOthers | mp3/cp2/src/kern/memory.c:405-454 | mapping one page leaves the translation of every address of another page unchanged |
| Memory.MapPageFixedKeepsMapped | mp3/cp2/src/kern/memory.c:405-454 | an address already mapped with the flags stays mapped with them after mapping another page |
| Memory.MapRangeFixedKeeps | mp3/cp2/src/kern/memory.c:456-478 | mapping a range keeps every address already mapped with the flags mapped with them |
| Memory.MapRangeFixedMaps | mp3/cp2/src/kern/memory.c:456-478 | after mapping a range with the corrected level-1 check, every byte of [vma, vma + size) translates to a leaf with the requested flags plus A, D and V |
| Memory.SetFlagsKeepsTree | mp3/cp2/src/kern/memory.c:480-503 | setting the flags of a mapped page keeps the tree well formed |
| Memory.SetFlagsStep | mp3/cp2/src/kern/memory.c:480-503 | setting the flags of a mapped page gives every address of that page the new flags on its old frame and leaves every other mapped address as it was |
| Memory.SetFlagsKeepsFrames | mp3/cp2/src/kern/memory.c:480-503 | setting the flags of a page keeps every mapped address of a range mapped to the same frame |
| Memory.SetRangeFlagsFixedKeeps | mp3/cp2/src/kern/memory.c:505-523 | over a mapped range, an address already carrying the flags keeps them and its frame |
| Memory.SetRangeFlagsFixedSets | mp3/cp2/src/kern/memory.c:505-523 | stepping from the page of vp, every byte of a mapped [vp, vp + size) translates afterwards to the requested flags plus A, D and V on the frame it had |
| Memory.SetRangeFlagsMissesLastPage | mp3/cp2/src/kern/memory.c:517-522 | as written, vp = 0x1FFF with size 2 over two mapped pages changes the page of 0x1FFF but leaves byte 0x2000 with its old flags |
| Memory.PageFaultMapsFreshPage | mp3/cp2/src/kern/memory.c:626-675 | a handled fault was on a well-formed user address, which afterwards translates to the head of the free list readable, writable and user-accessible |
| Memory.PageFaultOutsideUserExits | mp3/cp2/src/kern/memory.c:626-675 | the process exits exactly when the address is outside the user region or not well formed |
| Memory.SetFlagsSetsLeaf | mp3/cp2/src/kern/memory.c:480-503 | the leaf reached gets the requested flags plus A, D and V and keeps its page |
| Memory.SweepLeavesEffect | mp3/cp2/src/kern/memory.c:343-352 | the innermost loop nulls exactly the selected leaves, pushes their pages on the free list in order, and changes no other table |
| Memory.SweepLeavesKeepsPage | mp3/cp2/src/kern/memory.c:343-352 | the innermost loop never frees a page no live entry points at |
| Memory.ReleaseTableKeepsPage | mp3/cp2/src/kern/memory.c:678-699 | freeing an empty table never frees another page |
| Memory.SweepMidKeepsPage | mp3/cp2/src/kern/memory.c:339-355 | the middle loop never frees a page no live entry points at |
| Memory.SweepRootKeepsPage | mp3/cp2/src/kern/memory.c:335-360 | the outer loop never frees a page no live entry points at |
| Memory.ReclaimNeverFreesRoot | mp3/cp2/src/kern/memory.c:314-364 | reclaiming a space never puts its root table on the free list |
| Memory.UserReclaimIsFiltered | mp3/cp2/src/kern/memory.c:525-565 | the user reclaim frees exactly the leaves the full reclaim frees that also carry U |
| Memory.InitialFreeListShape | mp3/cp2/src/kern/memory.c:257-271 | the list built at boot holds the pages from the heap end on, highest first, and just the first page when there are none |
| Memory.Mmu.InitFreeList | mp3/cp2/src/kern/memory.c:247-271 | panics when RAM ends below the heap; otherwise the free list is the one InitialFreeList describes |
| Memory.Mmu.AllocPage | mp3/cp2/src/kern/memory.c:366-385 | fails exactly on an empty list; otherwise returns the head and leaves the rest |
| Memory.Mmu.FreePage | mp3/cp2/src/kern/memory.c:387-402 | the freed page becomes the head of the list |
| Memory.Mmu.WritePte | mp3/cp2/src/kern/memory.c:438-451 | one entry store |
| Memory.Mmu.SpaceCreate | mp3/cp2/src/kern/memory.c:282-313 | fails exactly on an empty list; otherwise the head page becomes a copy of the active root, satp holds its tag with the ASID, and no other page changes |
| Memory.Mmu.FreePtab | mp3/cp2/src/kern/memory.c:678-699 | answers 1 and frees the table exactly when none of its entries is valid |
| Memory.Mmu.SweepLeafTable | mp3/cp2/src/kern/memory.c:343-352 | the innermost loop computes SweepLeaves |
| Memory.Mmu.SweepMidEntry | mp3/cp2/src/kern/memory.c:340-355 | one middle iteration computes MidStep |
| Memory.Mmu.SweepMidTable | mp3/cp2/src/kern/memory.c:339-355 | the middle loop computes SweepMid |
| Memory.Mmu.SweepRootEntry | mp3/cp2/src/kern/memory.c:336-359 | one outer iteration computes RootStep |
| Memory.Mmu.Sweep | mp3/cp2/src/kern/memory.c:335-360 | the outer loop computes SweepRoot from entry 0 of the active root |
| Memory.Mmu.SpaceReclaim | mp3/cp2/src/kern/memory.c:314-364 | the whole active space is reclaimed and the main space becomes active |
| Memory.Mmu.UnmapAndFreeUser | mp3/cp2/src/kern/memory.c:525-565 | the reclaim restricted to U leaves, with the space kept active |
| Memory.Mmu.InstallTable | mp3/cp2/src/kern/memory.c:435-449 | one level of table creation as EnsureNext, failing exactly when its allocation does |
| Memory.Mmu.InstallLeaf | mp3/cp2/src/kern/memory.c:435-451 | the path creation and leaf store as MapLeaf |
| Memory.Mmu.AllocAndMapPage | mp3/cp2/src/kern/memory.c:405-454 | returns the rounded address, with the memory MapPage gives, failing exactly when it runs out of pages |
| Memory.Mmu.MapRangeStep | mp3/cp2/src/kern/memory.c:473-475 | one iteration advances past the page mapped and leaves the rest of the range to map |
| Memory.Mmu.AllocAndMapRange | mp3/cp2/src/kern/memory.c:456-478 | returns the start address, with the memory MapRange gives, mapping page after page from the rounded address and failing exactly when a page cannot be mapped (what the mapping then holds: MapRangeFixedMaps for the corrected page mapping) |
| Memory.Mmu.SetPageFlags | mp3/cp2/src/kern/memory.c:480-503 | the memory SetFlags gives |
| Memory.Mmu.SetRangeFlagsM | mp3/cp2/src/kern/memory.c:505-523 | the memory SetRangeFlags gives, stepping by 4096 from vp (what that misses: SetRangeFlagsMissesLastPage) |
| Memory.Mmu.SetRangeFlagsFixedM | mp3/cp2/src/kern/memory.c:505-523 | stepping from the page of vp, the memory SetRangeFlagsFixed gives, which SetRangeFlagsFixedSets shows gives every byte of a mapped range the flags |
| Memory.Mmu.ValidateVptrLen | mp3/cp2/src/kern/memory.c:567-599 | 0 exactly when every page visited in steps of 4096 from vp, up to `vp + len` in 64 bits, passes the check, -1 otherwise |
| Memory.Mmu.ValidateVptrLenFixed | mp3/cp2/src/kern/memory.c:567-599 | with the walk starting at vp's page and a range past 2^64 refused, 0 exactly when the range is empty or ends within the address space with every byte on a passing page |
| Memory.Mmu.ValidateVstr | mp3/cp2/src/kern/memory.c:601-624 | as written, 0 whatever the string and the tables |
| Memory.Mmu.ValidateVstrFixed | mp3/cp2/src/kern/memory.c:601-624 | with the failed check returned, 0 exactly when every byte up to the NUL lies on a passing page |
| Memory.Mmu.HandlePageFault | mp3/cp2/src/kern/memory.c:626-675 | handled, exit or panic exactly as PageFault maps, faults or runs out of pages; an exit changes no table |
| ProcessTable.OpenIos | mp3/cp2/src/kern/process.c:153-158 | the interfaces closed are non-NULL, no more than the slots, and each non-NULL interface is closed as often as the table holds it |
| ProcessTable.OpenIosSnoc | mp3/cp2/src/kern/process.c:153-158 | scanning one more slot closes its interface, if any, after the earlier ones |
| ProcessTable.ProcMgr.Init | mp3/cp2/src/kern/process.c:61-85 | main_proc gets id 0, the running thread and the active space, every I/O slot is NULL, the thread records main_proc and the manager is initialized |
| ProcessTable.ProcMgr.Terminate | mp3/cp2/src/kern/process.c:138-163 | the active space is reclaimed and main becomes active, every interface from slot 1 on is closed once in slot order and its slot cleared while slot 0 is kept, only this table entry becomes NULL, the structure is freed and the thread exits |
| ProcessTable.ProcMgr.CloseSlots | mp3/cp2/src/kern/process.c:153-158 | every interface from slot 1 on is closed once in slot order, every slot from 1 on ends NULL and slot 0 is kept |
| ProcessTable.ProcMgr.Exit | mp3/cp2/src/kern/process.c:123-136 | the current process's entry becomes NULL, it is freed, its space reclaimed and the thread exits |
| ProcessTable.Exec | mp3/cp2/src/kern/process.c:87-121 | the user pages are unmapped and freed first; a failed load returns -1, a successful one jumps to the entry point with the stack at the top of the user region |
| TrapCause.NameAt | mp3/cp2/src/kern/excp.c:28-42 | the table names every code up to the store page fault except 10, 11 and 14 |
| TrapCause.DefaultAction | mp3/cp2/src/kern/excp.c:123-137 | the kernel panics on the code, with a name exactly when the code is inside the table and not one of its gaps |
| TrapCause.SmodeAction | mp3/cp2/src/kern/excp.c:47-50 | every S-mode exception panics through the default handler |
| TrapCause.UmodeClassification | mp3/cp2/src/kern/excp.c:84-121 | a U-mode ECALL goes to the system-call handler, exactly the three page faults go to the fault handler with stval, exactly the seven access, alignment and illegal-instruction faults end the process, and every other code panics |
| TrapCause.UnnamedPanics | mp3/cp2/src/kern/excp.c:117-137 | a U-mode panic is unnamed exactly for the table's gaps and codes beyond it, and a breakpoint panics by name |
| Syscall.Classify | mp3/cp2/src/kern/syscall.c:53-90 | a call is chosen only by its own number, and none exactly when no call has that number |
| Syscall.ClassifyNumber | mp3/cp2/src/kern/syscall.c:66-88 | with distinct case labels each call's number dispatches to it |
| Syscall.Int32 | mp3/cp2/src/kern/syscall.c:53-90 | the int read from a register is a 32-bit value congruent to the register modulo 2^32 |
| Syscall.Int32OfSignExtended | mp3/cp2/src/kern/syscall.c:53-90 | a negative int sign-extended into a register reads back unchanged |
| Syscall.LowestFree | mp3/cp2/src/kern/syscall.c:156-161 | the slot found is NULL and every slot before it is not, or no slot is NULL |
| Syscall.PickSlot | mp3/cp2/src/kern/syscall.c:155-161 | the loop finds the lowest NULL slot, leaving fd as it was when there is none |
| Syscall.LowestFreeAt | mp3/cp2/src/kern/syscall.c:156-161 | the first NULL slot is the one before which no slot is NULL |
| Syscall.OpenResult | mp3/cp2/src/kern/syscall.c:139-215 | success exactly when the opener succeeds and fd is in range and free (any free slot for a negative fd); then the slot returned was NULL, is the given fd or the lowest free one, and takes the interface; on error the table is unchanged and the error is the opener's or EBADFD |
| Syscall.OpenInto | mp3/cp2/src/kern/syscall.c:139-178 | the open code computes OpenResult on the process's table |
| Syscall.Lookup | mp3/cp2/src/kern/syscall.c:227 | inside the table the load reads the slot; outside it reads the stray word as written and nothing when checked |
| Syscall.Target | mp3/cp2/src/kern/syscall.c:227-231 | a call reaches a non-NULL interface only; checked, only the one stored at fd; inside the table exactly when the slot is non-NULL |
| Syscall.Forward | mp3/cp2/src/kern/syscall.c:240-323 | EBADFD when fd reaches no interface, the interface's own result otherwise |
| Syscall.CloseResult | mp3/cp2/src/kern/syscall.c:217-238 | the interface fd reaches is closed and 0 returned, EBADFD when none; only a slot inside the table is set to NULL |
| Syscall.CloseFd | mp3/cp2/src/kern/syscall.c:217-238 | sysclose computes CloseResult on the process's table |
| Syscall.CloseOutsideTable | mp3/cp2/src/kern/syscall.c:217-238 | as written, closing fd -1 closes the word before the table and reports success |
| Syscall.CheckedStaysInTable | mp3/cp2/src/kern/syscall.c:217-323 | with the range check, close reaches only the interface at fd and every call on an fd outside the table gets EBADFD |
| Syscall.CloseThenOpenReuses | mp3/cp2/src/kern/syscall.c:139-238 | after closing fd, an open with a negative fd succeeds in a slot no higher than fd |
| Syscall.SyscallResult | mp3/cp2/src/kern/syscall.c:53-90 | an unknown number gives ENOTSUP and changes nothing, only exit does not return, msgout returns 0, only close closes an interface, and only the opens and close change the table |
| Syscall.Dispatch | mp3/cp2/src/kern/syscall.c:53-90 | the dispatcher computes SyscallResult |
| Syscall.Handle | mp3/cp2/src/kern/syscall.c:39-51 | sepc moves past the ecall in 64 bits and a0 gets the dispatcher's result, unchanged for a call that does not return |
| Elf.DecodeEhdr | mp3/cp1/src/kern/elf.c:53-68 | the packed header's identification is its first 16 bytes and every field fits its declared width |
| Elf.DecodePhdr | mp3/cp1/src/kern/elf.c:71-80 | every field of the packed program header fits its declared width |
| Elf.HeaderCheck | mp3/cp1/src/kern/elf.c:116-157 | no error exactly when the identification and the fields are right; EBADFMT exactly for a bad identification; EINVAL exactly for a good identification with a bad type, machine, version or entry |
| Elf.ReadFull | mp3/cp1/src/kern/elf.c:110 | a full read returns the image's bytes at the position, all of them exactly when the image holds them |
| Elf.PhdrAt | mp3/cp1/src/kern/elf.c:177-178 | a header inside the buffer is the decoding of its 56 bytes |
| Elf.PhdrTable | mp3/cp1/src/kern/elf.c:177-178 | the loop sees e_phnum headers, each the one at its index |
| Elf.Frees | mp3/cp1/src/kern/elf.c:171-199 | the kfree calls are among the events |
| Elf.FreesAppend | mp3/cp1/src/kern/elf.c:171-199 | kfree counts add over concatenated event sequences |
| Elf.LoadSegment | mp3/cp1/src/kern/elf.c:186-195 | a segment first zeroes memsz bytes at p_vaddr; it completes exactly when its bytes can be read, and then copies filesz bytes of the file; otherwise it frees the buffer once |
| Elf.LoadSegmentSteps | mp3/cp1/src/kern/elf.c:186-195 | a refused seek frees right after the memset, a short read frees after the partial copy, a full read just copies |
| Elf.LoopTurn | mp3/cp1/src/kern/elf.c:177-197 | one turn skips another type, breaks at a segment outside the window (freeing as written), ends after a failed read, or loads the segment and goes on |
| Elf.LoadSegments | mp3/cp1/src/kern/elf.c:177-197 | the program-header loop computes Segments |
| Elf.Load | mp3/cp1/src/kern/elf.c:106-202 | elf_load computes LoadResult |
| Elf.EntryAfterChecks | mp3/cp1/src/kern/elf.c:110-158 | the entry pointer is written exactly when the whole header was read and every check passed, with the non-zero e_entry; a load that stops earlier fails and touches no memory |
| Elf.HeaderErrors | mp3/cp1/src/kern/elf.c:110-157 | a short header is EIO, a bad identification EBADFMT, a bad type, machine, version or entry EINVAL |
| Elf.SegmentsDone | mp3/cp1/src/kern/elf.c:177-197 | the loop runs to the end exactly when every later PT_LOAD header is inside the window and readable in full |
| Elf.SegmentImage | mp3/cp1/src/kern/elf.c:186-192 | after a loaded segment memory holds the file bytes over filesz, zeroes up to memsz, and is unchanged elsewhere |
| Elf.SkipsOtherTypes | mp3/cp1/src/kern/elf.c:178 | a header that is not PT_LOAD is skipped |
| Elf.BreakStillSucceeds | mp3/cp1/src/kern/elf.c:180-201 | a break at a segment outside the window still returns 0 |
| Elf.SegmentsFrees | mp3/cp1/src/kern/elf.c:177-197 | the loop frees nothing when it runs to the end, once after a failed read, and once at a break as written but not when corrected |
| Elf.SegmentsStayInWindow | mp3/cp1/src/kern/elf.c:180-192 | with the corrected window test every memset and read stays inside the user window |
| Elf.WrappedSegmentAccepted | mp3/cp1/src/kern/elf.c:180 | as written, a segment whose end wraps past 2^64 passes the test and its memset lands far above the window |
| Elf.OversizedFileAccepted | mp3/cp1/src/kern/elf.c:180-192 | as written, a segment with more file bytes than memory bytes passes the test and its read runs past the window |
| Elf.DoubleFreeOnBreak | mp3/cp1/src/kern/elf.c:180-199 | as written, a break frees the program-header buffer twice |
| Elf.LoadFreesOnce | mp3/cp1/src/kern/elf.c:162-199 | corrected, an allocated buffer is freed exactly once however the load ends |
| RingBuffer.Count16 | mp2/cp2/kern/serial.c:349-351 | the queued count is a 16-bit value |
| RingBuffer.Count16Mod | mp2/cp2/kern/serial.c:349-351 | the count is the counters' difference taken modulo 2^16 |
| RingBuffer.Inc16 | mp2/cp2/kern/serial.c:353-371 | a counter's increment wraps modulo 2^16 |
| RingBuffer.Slot | mp2/cp2/kern/serial.c:357 | a counter designates one of the 64 slots |
| RingBuffer.SlotOfWrapped | mp2/cp2/kern/serial.c:353-371 | a counter wrapping past 2^16 keeps its slot sequence, since 64 divides 2^16 |
| RingBuffer.TailSlot | mp2/cp2/kern/serial.c:349-360 | the tail's slot follows the last queued byte's |
| RingBuffer.SlotsDiffer | mp2/cp2/kern/serial.c:353-360 | counters less than 64 apart designate different slots |
| RingBuffer.Ring.Init | mp2/cp2/kern/serial.c:340-343 | both counters zero and nothing queued |
| RingBuffer.Ring.Empty | mp2/cp2/kern/serial.c:345-347 | empty exactly when nothing is queued |
| RingBuffer.Ring.Full | mp2/cp2/kern/serial.c:349-351 | full exactly when 64 bytes are queued, whatever the counters' wrap-around |
| RingBuffer.Ring.Put | mp2/cp2/kern/serial.c:353-360 | the byte goes to the tail's slot and the tail advances; below 64 bytes the queue gains the byte at its end; on a full buffer the oldest byte is overwritten and the count passes 64 |
| RingBuffer.Ring.Get | mp2/cp2/kern/serial.c:362-371 | the head's byte is returned and the head advances; on a non-empty buffer it is the oldest byte and the rest of the queue keeps its order |
| RingBuffer.Queue | mp2/cp2/kern/serial.c:349-371 | the queue holds as many bytes as the count |
| RingBuffer.PutEffect | mp2/cp2/kern/serial.c:353-360 | below 64 bytes a put appends the byte to the queue and adds one to the count |
| RingBuffer.GetEffect | mp2/cp2/kern/serial.c:362-371 | on a non-empty buffer a get removes the head of the queue and subtracts one from the count |
| Serial.IsrClears | mp2/cp2/kern/serial.c:316-336 | the ISR clears data-ready interrupts exactly when a byte is ready and the receive buffer is full, transmit interrupts exactly when THR is empty and nothing is queued, and no other IER bit |
| Serial.Uart.InitAsync | mp2/cp2/kern/serial.c:136-157 | both buffers empty and only data-ready interrupts enabled |
| Serial.Uart.Isr | mp2/cp2/kern/serial.c:302-338 | an overrun panics and changes nothing; otherwise a ready byte joins the receive queue unless it is full, the oldest queued byte is sent when THR is empty, and each interrupt is disabled exactly when its buffer cannot serve it; both buffers stay within 64 bytes |
| Serial.Uart.Receive | mp2/cp2/kern/serial.c:316-325 | a ready byte joins the receive queue unless it is full, and data-ready interrupts are disabled exactly in that case |
| Serial.Uart.Transmit | mp2/cp2/kern/serial.c:327-336 | when THR is empty the oldest queued byte is sent, or transmit interrupts are disabled when none is queued |
| Serial.Uart.PutcAsync | mp2/cp2/kern/serial.c:258-278 | the byte joins the end of the transmit queue and transmit interrupts are enabled |
| Serial.Uart.GetcAsync | mp2/cp2/kern/serial.c:280-299 | the oldest received byte is removed and returned and data-ready interrupts are enabled |
| SerialCp1.FullAsWrittenIff | mp2/cp1/kern/serial.c:265-268 | the check as written agrees with the 16-bit count exactly when the tail has not wrapped below the head |
| SerialCp1.WrappedFullMissed | mp2/cp1/kern/serial.c:265-272 | as written, a full buffer with a wrapped tail is not reported full, and a put then overwrites the oldest byte with 65 bytes counted in 64 slots |
| SerialCp1.FullCheckCount | mp2/cp1/kern/serial.c:265-268 | the corrected check reports full exactly at 64 bytes; either check reports full only at 64 bytes |
| SerialCp1.Com1.Init | mp2/cp1/kern/serial.c:140-174 | both buffers empty, data-ready interrupts enabled and the port initialized |
| SerialCp1.Com1.Isr | mp2/cp1/kern/serial.c:222-253 | an overrun panics and changes nothing; otherwise the receive and transmit steps, the buffers staying within 64 bytes when corrected, while as written a wrapped full receive buffer takes a 65th byte |
| SerialCp1.Com1.Receive | mp2/cp1/kern/serial.c:233-241 | a ready byte joins the receive queue below 64 bytes, the queue is kept when the check reports full, and as written a wrapped full buffer takes a 65th byte |
| SerialCp1.Com1.Transmit | mp2/cp1/kern/serial.c:243-251 | when THR is empty the oldest queued byte is sent, or transmit interrupts are disabled when none is queued |
| SerialCp1.Com1.Putc | mp2/cp1/kern/serial.c:176-196 | once the wait passes the byte joins the transmit queue below 64 bytes, and as written a wrapped full buffer takes a 65th byte; transmit interrupts are enabled |
| SerialCp1.Com1.Getc | mp2/cp1/kern/serial.c:198-220 | once the wait passes the oldest received byte is removed and returned and data-ready interrupts are enabled |
| Plic.BitIndex | mp3/cp1/src/kern/plic.c:134-137 | a source's bit in its pending or enable word is one of the 32 bits |
| Plic.SetBitKeeps | mp3/cp1/src/kern/plic.c:160-162 | ORing in a bit sets it and keeps every other bit |
| Plic.ClearBitKeeps | mp3/cp1/src/kern/plic.c:185-187 | masking out a bit clears it and keeps every other bit |
| Plic.ShiftArith | mp3/cp1/src/kern/plic.c:113-252 | the shifts and masks are the driver's 32-bit products, quotients and remainders by powers of two |
| Plic.PriorityLayout | mp3/cp1/src/kern/plic.c:113-114 | each of the 0x400 sources has its own aligned priority word below the pending area |
| Plic.PendingLayout | mp3/cp1/src/kern/plic.c:134-137 | pending words lie between the priorities and the enables, and two sources share one exactly when they are in the same group of 32 |
| Plic.EnableInBlock | mp3/cp1/src/kern/plic.c:160-162 | with the 4-byte stride a source's enable word lies in its context's 0x80-byte block |
| Plic.EnableSameWord | mp3/cp1/src/kern/plic.c:160-162 | with the 4-byte stride two sources share an enable word exactly when they are in the same group of 32 |
| Plic.EnableNotPriority | mp3/cp1/src/kern/plic.c:113-162 | no enable word, with either stride, is a priority word |
| Plic.PriorityApart | mp3/cp1/src/kern/plic.c:58-68 | a source's priority word is neither another source's priority word nor an enable word of context 0 |
| Plic.EnableStrideAsWritten | mp3/cp1/src/kern/plic.c:160-162 | as written, source 32's enable word of context 0 is the one for sources 128 to 159, and source 256's lies in context 1's block |
| Plic.ContextLayout | mp3/cp1/src/kern/plic.c:206-252 | claim and complete share the word after the threshold, and distinct contexts have distinct registers |
| Plic.ZeroThenSet | mp3/cp1/src/kern/plic.c:65-66 | one loop turn zeroes the priority word, sets the enable bit, touches no other word and clears no other bit |
| Plic.InitLastSets | mp3/cp1/src/kern/plic.c:64-67 | the latest turn leaves its source at priority 0 with its enable bit set |
| Plic.InitLastOther | mp3/cp1/src/kern/plic.c:64-67 | the latest turn writes no word besides its source's priority and enable words |
| Plic.InitLastKeeps | mp3/cp1/src/kern/plic.c:64-67 | the latest turn clears no bit outside its source's priority word |
| Plic.InitPriorityZero | mp3/cp1/src/kern/plic.c:64-67 | after n turns every source below n has priority 0, whatever the registers held |
| Plic.InitEnabled | mp3/cp1/src/kern/plic.c:64-67 | after n turns every source below n has its bit set in the word its turn wrote |
| Plic.InitReady | mp3/cp1/src/kern/plic.c:58-68 | with the 4-byte stride, after n turns every source below n has priority 0 and is enabled for context 0 |
| Plic.InitSkipsWord1 | mp3/cp1/src/kern/plic.c:58-68 | as written, the loop never writes context 0's enable word for sources 32 to 63 |
| Plic.InitMissesSource32 | mp3/cp1/src/kern/plic.c:58-68 | as written, from zeroed registers source 32 ends disabled for context 0 while source 0 is enabled for context 1 |
| Plic.SetBitAtBits | mp3/cp1/src/kern/plic.c:160-162 | after setting a bit, a bit of any word is set exactly when it is that bit or was set |
| Plic.ClearBitAtBits | mp3/cp1/src/kern/plic.c:185-187 | after clearing a bit, a bit of any word is set exactly when it is not that bit and was set |
| Plic.EnableBitOwn | mp3/cp1/src/kern/plic.c:160-162 | with the 4-byte stride each source of a context has an enable bit of its own |
| Plic.EnableOnly | mp3/cp1/src/kern/plic.c:140-163 | enabling a source for a context enables it and leaves every other source of the context as it was |
| Plic.DisableOnly | mp3/cp1/src/kern/plic.c:165-188 | disabling a source for a context disables it and leaves every other source of the context as it was |
| Plic.Controller.Init | mp3/cp1/src/kern/plic.c:58-68 | the registers are those of the 0x400 loop turns; with the 4-byte stride every source ends at priority 0 and enabled for context 0; as written, from zeroed registers source 32 is left disabled and source 0 enabled for context 1 |
| Plic.Controller.EnableIrq | mp3/cp1/src/kern/plic.c:70-73 | the source's priority word becomes prio and nothing else changes |
| Plic.Controller.DisableIrq | mp3/cp1/src/kern/plic.c:75-80 | a positive irqno gets priority 0; any other changes nothing |
| Plic.Controller.ClaimIrq | mp3/cp1/src/kern/plic.c:82-86 | returns context 0's claim word |
| Plic.Controller.CloseIrq | mp3/cp1/src/kern/plic.c:88-92 | the source number is written to context 0's claim/complete word and nothing else changes |
| Plic.Controller.SetSourcePriority | mp3/cp1/src/kern/plic.c:97-116 | the source's priority word becomes level and nothing else changes |
| Plic.Controller.SourcePending | mp3/cp1/src/kern/plic.c:118-138 | pending exactly when the source's bit of its pending word is set |
| Plic.Controller.EnableSourceForContext | mp3/cp1/src/kern/plic.c:140-163 | only the source's enable bit is ORed into its enable word |
| Plic.Controller.DisableSourceForContext | mp3/cp1/src/kern/plic.c:165-188 | only the source's enable bit is cleared in its enable word |
| Plic.Controller.SetContextThreshold | mp3/cp1/src/kern/plic.c:190-209 | the context's threshold word becomes level and nothing else changes |
| Plic.Controller.ClaimContextInterrupt | mp3/cp1/src/kern/plic.c:211-230 | returns the context's claim word |
| Plic.Controller.CompleteContextInterrupt | mp3/cp1/src/kern/plic.c:232-253 | the source number is written to the context's claim/complete word and nothing else changes |
| Timer.Tick | mp3/cp1/src/kern/timer.c:71-76 | the 10 Hz count goes up by one modulo 2^64 and the 1 Hz count by at most one |
| Timer.TickNoWrap | mp3/cp1/src/kern/timer.c:71-76 | below 2^64 the 1 Hz count goes up exactly when the new 10 Hz count is a multiple of ten |
| Timer.SecondsStep | mp3/cp1/src/kern/timer.c:71-76 | one more tenth adds a whole second exactly at a multiple of ten |
| Timer.TicksFromZero | mp3/cp1/src/kern/timer.c:66-76 | from zero, after n interrupts the 10 Hz count is n and the 1 Hz count the whole seconds in it |
| Timer.OneHzFollows | mp3/cp1/src/kern/timer.c:71-76 | each tick keeps the 1 Hz count at a tenth of the 10 Hz count |
| Timer.NextCmp | mp3/cp1/src/kern/timer.c:79 | the next compare value is a tenth of a second later, in 64 bits |
| Timer.AddMod | mp3/cp1/src/kern/timer.c:79 | reducing modulo 2^64 before adding the interval changes nothing |
| Timer.CmpSchedule | mp3/cp1/src/kern/timer.c:52-81 | after the start and n interrupts the next one is due at n + 1 tenths of a second, modulo 2^64, however late each handler ran |
| Timer.Clock.constructor | mp3/cp1/src/kern/timer.c:13-19 | the counters start at zero, the timer uninitialized with its interrupt disabled |
| Timer.Clock.Init | mp3/cp1/src/kern/timer.c:38-50 | panics, changing nothing, exactly when interrupts are not initialized; otherwise mtime is 0, the compare register at its maximum, the interrupt disabled and the timer initialized |
| Timer.Clock.Start | mp3/cp1/src/kern/timer.c:52-56 | mtime 0, the first interrupt a tenth of a second later, the interrupt enabled |
| Timer.Clock.Handler | mp3/cp1/src/kern/timer.c:60-81 | the counters take one tick and the next interrupt is due a tenth of a second after the one taken |

## Left out

- Devices are abstract:
  - An `io_intf` is modelled as a disk of 4096-byte blocks (file systems), a byte medium (VirtIO) or a file image (ELF loader).
  - `ioseek` failures are a predicate parameter.
  - The operations vectors themselves are not modelled.
- KfsLayout.ReadBlk and KfsLayout.WriteBlk: a block beyond the end of the disk reads as a zero block, and a write to it is dropped. In the source the device refuses a position past its size (mp3/cp1/src/kern/vioblk.c:686-688). The file system does not check that refusal (mp3/cp2/src/kern/kfs.c:222 and 365), so the transfer happens at the device's stale position:
  - a read (kfs.c:223) returns the bytes of whatever block that position holds;
  - a write (kfs.c:366) overwrites that other block.
  Only a block starting exactly at the device size leaves the read buffer uninitialised. The model does not track the device position, so none of these cases is represented.
- The headers error.h, scnum.h, io.h and config.h are not part of this model:
  - error codes are the symbolic datatype `Errno`;
  - system-call numbers are the parameter `Numbers`;
  - PROCESS_IOMAX is the length of the I/O table;
  - RAM_END and the user window bounds are fields of the `Mmu` class.
- A kernel panic is modelled as an outcome (`panicked`, `Panic`) rather than as a precondition, so each panic path is stated.
- Concurrency is not modelled:
  - condition variables, `intr_disable`/`intr_restore` and the `wfi` loops;
  - the early `-EIO` returns of vioblk_read and vioblk_write that skip `intr_restore`;
  - `com_putc_async` restoring interrupts before `rbuf_put`.
- Serial.Uart.PutcAsync, Serial.Uart.GetcAsync, SerialCp1.Com1.Putc, SerialCp1.Com1.Getc: modelled from the moment the wait for space or data returns; the waits themselves are left out.
- The VirtIO wait for a request's completion is one synchronous step: the device serves or fails each request, selected by a predicate on the block number.
- The VirtIO virtqueue descriptor layout, feature negotiation, `virtio_attach_virtq` and the status-register writes are left out. The request type and sector of every request are kept.
- The memory effects of the ELF loader (`memset`, `ioread_full` into user memory, `kmalloc`/`kfree`) are an event trace.
- Elf.Load: the `int` product `phentsize * phnum` is taken as unbounded. Its 32-bit overflow for huge headers is not modelled.
- Satp writes, `sfence.vma`, the kernel-image mapping loops of memory_init and the heap are not modelled. The active tag is a field the walks read.
- ProcessTable.Exec and the system calls: kernel heap, thread and `kmalloc` internals, `device_open`, `fs_open` and `elf_load` are parameters of the model (`Env`), not code. ProcessTable.Exec states the memory after the user-space unmap only. The pages `elf_load` maps and fills before `thread_jump_to_user` (mp3/cp2/src/kern/process.c:87-121) are not part of its contract. The loader's own effects are stated by Elf.Load as an event trace.
- `kprintf`, `trace` and `debug` output is left out.
- The synchronous `com0` console, the UART divisor set-up and its spin loops are left out.
- MMIO registers the model never wrote read as 0 (a missing key in the register map).
- Plic: the 64-bit pointer addition of the register addresses is modelled in 32 bits. `irqno`, `srcno` and `prio` are 32-bit words, so negative `int` arguments are not modelled.
- Timer: the hardware advance of `mtime` between calls and the condition-variable broadcasts of the handler are left out.
- KfsTable.FileSystem.Open: requires an idle slot when the name is found and the allocation succeeds. With all 16 in use the source then writes one past the table, which the model does not represent.
- Syscall.OpenInto and Syscall.OpenResult: require a free slot when fd < 0 and the opener succeeds. The source then leaves fd negative and stores the interface at that index, outside the table.
- Syscall.Dispatch and Syscall.Handle: for msgout require the string to end a page below 2^64, as Memory.Mmu.ValidateVstr does.
- KfsLayout.CName: a name field with no NUL in its 32 bytes is compared by strcmp on past the field, through the inode number and the bytes after it. The model compares only the 32 bytes, so such an entry matches a longer name in the source but not here.
- KfsList.FillBlockList: when the inode's block count exceeds the new count (the descriptor's size is below the inode's length), the copy loop of kfs.c:308-310 writes past the end of `data_blk_array`. The model copies only the entries that fit, and what the stray stores overwrite on the stack is not represented.
- KfsData.EntryCount, KfsData.Lookup and KfsData.FindInodeByName: the scan stops after the 63 entries the boot block holds. The source loops up to `num_entries` with no cap (mp3/cp2/src/kern/kfs.c:484, and the same line in cp1). Past 63 entries it reads beyond `entries[62]` into the rest of the `fs` structure. The model does not represent those bytes.
- KfsData.BlockOf: an index of 1023 or more reads as block 0. The source reads past `data_blks` into whatever follows the inode buffer.
- Memory.Mmu.ValidateVptrLen: requires vp and len below 2^64 and the wrapped bound to leave room for the loop's last step. Without that room `crt += PAGE_SIZE` wraps too and the loop starts over from address 0, which the model does not follow.
- Memory.Mmu.ValidateVstr and Memory.Mmu.ValidateVstrFixed: require the string to end a page below 2^64, so that every one-byte check meets ValidateVptrLen's bound.
- Memory.Mmu.AllocAndMapRange and Memory.Mmu.SetRangeFlagsM: `vp + size` is taken as unbounded. Its 64-bit wrap, which makes the loop map or update nothing, is not modelled.
- Memory.Mmu.AllocAndMapRange: what the mapped range translates to is proved for the corrected page mapping (MapRangeFixedMaps) only. As written, line 444 can make a page mapping report success without mapping (MapPageLine444Loses).
- Free-list links: the model keeps the free list as a sequence beside the pages (`Phys.free`). The source links each free page to the next through the page's own first word, which the model does not represent.
- KfsData.ReadDesc, KfsTable.WriteDesc, KfsList.GrownSize and KfsList.WriteGrow: the count `n` is unbounded, so `pos + n` is compared with the size without the 64-bit wrap of the source's `unsigned long` sum (mp3/cp2/src/kern/kfs.c:187 and 277, mp3/cp1/src/kern/kfs.c:188 and 275). For n ≥ 2^64 − pos the source's sum wraps below the size: the read or write count is then not clamped, and the cp1 fs_write keeps the old size instead of growing it. The model always clamps or grows.
- VirtioBlock.ReadResult, VirtioBlock.WriteResult, VirtioBlock.Vioblk.Read and VirtioBlock.Vioblk.Write: `pos + bufsz` (vioblk.c:394 and the matching write check) is taken as unbounded. Its 64-bit wrap, which would let a huge count pass the clamp uncut, is not modelled.
- ProcessTable.ProcMgr.Terminate: the thread exit and the `kfree` of the process record are recorded in logs, not performed. Freeing the static `main_proc` is kept as written.

## Findings

| source | as written | input that shows it | evidently intended | confidence | as-written member | corrected member |
|---|---|---|---|---|---|---|
| mp3/cp2/src/kern/memory.c:444 | the level-0 table is looked up through entry 0 of the level-1 table (`ptab1->flags`) instead of entry vpn1 | va = 0x80200000 with root entry 2 valid, level-1 entry 0 valid and entry 1 invalid: the call returns va, but va does not translate | test and follow entry vpn1 | not executed | Memory.MapPageLine444Loses | Memory.MapPageFixedMaps |
| mp3/cp2/src/kern/memory.c:567-599 | the loop steps by 4096 from the unaligned vp, so the last page of a range that crosses a boundary is not checked | vp = 0x1FFF, len = 2, only page 1 mapped: the check passes, yet byte 0x2000 is unmapped | step from the rounded-down vp | not executed | Memory.VptrLenMissesLastPage | Memory.Mmu.ValidateVptrLenFixed |
| mp3/cp2/src/kern/memory.c:586 | the loop bound `vp + len` is a 64-bit sum that wraps for a range running past the top of the address space | vp = 0x10000, len = 2^64 - 0x8000: the bound wraps to 0x8000, no page is visited and 0 is returned with nothing mapped | refuse a range whose end passes 2^64 | not executed | Memory.VptrLenWraps | Memory.Mmu.ValidateVptrLenFixed |
| mp3/cp2/src/kern/memory.c:517-522 | the loop steps by 4096 from the unaligned vp, so the last page of a range that crosses a boundary keeps its flags | vp = 0x1FFF, size = 2 over two mapped pages: byte 0x2000 keeps its old flags | step from the rounded-down vp | not executed | Memory.SetRangeFlagsMissesLastPage | Memory.SetRangeFlagsFixedSets |
| mp3/cp2/src/kern/memory.c:601-624 | memory_validate_vstr returns 0 on every path | the string "" at address 0 in an empty address space is accepted | check every page of the string, its NUL included | not executed | Memory.UnmappedStringFailsCheck | Memory.Mmu.ValidateVstrFixed |
| mp3/cp1/src/kern/vioblk.c:441-445, 552-556 | the request's `sector` field holds the block number, while section 5.2.6 of the VirtIO 1.1 specification counts 512-byte sectors | blksz = 4096, read of block 1: bytes 512 to 4607 come back instead of 4096 to 8191 | sector = block × blksz / 512 | not executed | VirtioBlock.ReadMisplacesBlocks | VirtioBlock.ReadFixedReturnsMedia |
| mp3/cp1/src/kern/kfs.c:304-311 | the index of the newly allocated data block is stored, then overwritten by the copy of the old list | a 4000-byte file in block 7, 96 bytes written at 4000: block 5 is allocated but the list becomes 7, 0 | store the new index after the copy | not executed | KfsList.NewBlockListLosesIndex | KfsList.NewBlockListRecordsIndex |
| mp3/cp2/src/kern/syscall.c:217-323 | sysclose, sysread, syswrite, sysioctl and sysexec index `iotab[fd]` with no range check | fd = -1 closes the word before the table and returns 0 | -EBADFD for fd outside the table | not executed | Syscall.CloseOutsideTable | Syscall.CheckedStaysInTable |
| mp3/cp1/src/kern/elf.c:180 | the window test adds vaddr + memsz in 64 bits | vaddr = 0xFFFFFFFFFFFFF000, memsz = 0x2000 passes and is zeroed far above the window | reject a wrapping segment | not executed | Elf.WrappedSegmentAccepted | Elf.SegmentsStayInWindow |
| mp3/cp1/src/kern/elf.c:180-194 | the window test bounds memsz only, while filesz bytes are copied | vaddr = 0x80FFFFF0, memsz = 0x10, filesz = 0x100 reads past the window | also require filesz ≤ memsz | not executed | Elf.OversizedFileAccepted | Elf.SegmentsStayInWindow |
| mp3/cp1/src/kern/elf.c:182, 199 | the program-header buffer is freed before the break and again after the loop | a PT_LOAD segment outside the window | free it once | not executed | Elf.DoubleFreeOnBreak | Elf.LoadFreesOnce |
| mp2/cp1/kern/serial.c:265-268 | rbuf_full compares the `int` difference of the two 16-bit counters with 64 | hpos = 65500, tpos = 28 (64 queued): not full, and the next put overwrites the oldest byte | compare the 16-bit difference | not executed | SerialCp1.WrappedFullMissed | SerialCp1.FullCheckCount |
| mp3/cp1/src/kern/plic.c:160-162, 185-187 | the enable word offset `srcno/32*4` is added to a `uint32_t*`, so words are 16 bytes apart | source 32 in context 0 uses the word of sources 128 to 159; after plic_init source 32 is disabled | a 4-byte stride (section 3 of the RISC-V PLIC Specification) | not executed | Plic.InitMissesSource32 | Plic.InitReady |
