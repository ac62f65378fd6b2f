# system44: a verified model of the kernel's stateful core

system44 is a small 32-bit kernel. This project models the parts of it that keep state, in
Dafny 4.11, and proves what they promise over all inputs and whole runs.
`dafny verify dfyconfig.toml` checks everything.

| files | part of the system |
|---|---|
| `PageRuns`, `Bitmap`, `MemoryMap`, `PageAllocator`, `AllocatorRuns` | the physical page allocator: byte bitmap, next-fit scan with word skipping, start-up from the BIOS memory map, runs of allocations and releases |
| `Disk`, `KfsLayout`, `Kfs`, `KfsContents`, `KfsRuns`, `ImageBuilder`, `KfsEndToEnd`, `ByteRange` | the drive, the KFS superblock and its operations, the Python image builder, and the byte-range reader |
| `UexFormat`, `Uex`, `UexCorrect`, `UexEndToEnd`, `FbLogo` | the program packer, the loader, `exec`, and the logo reader as clients of file system and allocator |
| `ContextSwitch`, `Scheduler`, `KernelCode`, `SchedulerRuns`, `RoundRobin` | the context switch, the cooperative scheduler, and runs of scheduler and tasks |
| `Keyboard` | the keyboard ring between interrupt handler and reader |
| `Tokens`, `Shell`, `ShellCommands`, `Numerals` | the string tokenizer, the shell's line editor and command dispatch, `cat`, number printing and parsing, the log's time stamp |
| `PciBars` | sizing the base address registers of a PCI function |
| `Words`, `Memory`, `Option` | bytes, little-endian words, byte ranges, `memcpy`/`memset` |

How the model is built:

- What the source updates in place is an array or a field here, changed by methods; each method
  is proved against a specification (a function or predicate on sequences), and the theorems are
  about that specification. The superblock is the raw 512-byte sector.
- Memory is one array of bytes. The allocator's bitmap is the part of it at `home`, so what a
  program load or a file read writes there is what the allocator sees. Its bytes are taken as 8-bit
  vectors where bits are set and tested, and the scan's word view is four of them put together.
- 32-bit sums that can wrap, the 8-bit sector count and the 28-bit sector address of the drive
  are written out (`% WORD_LIMIT`, `% 256`, `% LBA_LIMIT`).
- Addresses of words in `ContextSwitch` and `Scheduler` count 32-bit words. The process table has
  the layout of the C structures; a push, a pop and `ret` act on the same flat memory as the table,
  so that the separation of stacks is a theorem. The loop variable of `m_scheduler` is taken to be
  in `ebx`, which makes its survival across a switch part of what is proved.
- The keyboard reader is a sequence of single loads and stores with an interrupt possible between
  any two of them; the theorems about the ring hold for any pair of translation tables, and the
  kernel's own pair has theorems of its own.
- A base address register is a held value and a unit: address bits from the unit up can be written,
  the ones below are wired (section 6.2.5.1 of the PCI Local Bus Specification, revision 3.0).

What turned out to be different from what one may expect of the code:

- `pmm_alloc` can return NULL although a long enough free run exists: one that straddles the hint
  (`AllocatorRuns.NullMeansStraddling` says exactly when, `AllocatorRuns.FirstFailureIsNotFinal`
  shows a reachable case, `AllocatorRuns.SecondFailureIsFinal` what two failures mean).
- A loaded program can be written past its last page, by at most 488 bytes, when its size modulo
  4096 is 0 or above 4072 and its sectors are read in one transfer (`UexFormat.LoadStaysInside`,
  `UexCorrect.WritesStayInBlock`).
- A program whose load address is the bitmap's is loaded over it and `exec` reports success; with a
  first byte like 0, page 0 then counts as free (`UexCorrect.LoadOverBitmap`). `exec` keeps the page
  map exactly when what it writes spares the bitmap and it loses no pages (`Uex.ExecBalance`,
  `Uex.KeepsMap`); it loses pages when the sectors after the first cannot be read.
- An allocated program that stays within its pages keeps the page map exactly unless the number of its
  sectors after the first is a positive multiple of 256; then the 8-bit count is 0, the transfer fails
  and the pages are lost (`UexCorrect.ProgramsKeepMapOverRuns`, `UexCorrect.PagesAreLost` for 131073
  bytes).
- `pmm_init` reserves as many pages as the bitmap's size takes. With an unaligned place the bitmap can
  reach into one page more, which is then handed out: `PageAllocator.BitmapIsReserved` says exactly
  when, `PageAllocator.UnalignedMapStarts` shows it. The pages freed for a usable entry lie in it
  exactly when it starts at a page boundary below 4 GB, or has no whole page
  (`MemoryMap.PagesLieInEntry`); its length does not matter. The map of a common PC meets both
  conditions (`AllocatorRuns.PcMapStarts`).
- A program with more than 255 sectors after the first is cut off without an error, unless their
  number is a multiple of 256 (`UexCorrect.LoaderIsCorrect`).
- `kfs_write` reports success whether or not the data could be stored; the file can be read back
  exactly when it takes 1 to 255 sectors and the drive has them (`KfsRuns.SuccessReadsBack`).
- A file that `touch` has made cannot be shown: `cat` asks for a transfer of no sectors and reports an
  I/O error (`ShellCommands.TouchedFileGivesError`).
- `kfsExtension0` copies a wrong number of bytes exactly when offset + size wraps round to a value
  inside the file (`ByteRange.CopyLengthIsRight`; `ByteRange.WrappingRange` is such a range).
- `task_l_spawn` moves the stack pointer down by 20 words, not 20 bytes; the frame is still the one
  `swtch` pops (`SchedulerRuns.SpawnWrites`).
- In the shell, a command typed without an argument gets what a longer, erased draft of the same
  line left in the buffer (`Shell.ArgumentIs` says exactly when, `Shell.ErasedTextIsArgument` gives a
  family of such inputs); for `touch` and `exec` that is a file name nobody asked for.
- The size of a base address register that does not read 0 is computed in full but recorded in a byte: the record has it
  exactly when it is below 256 and the register does not read 0, and otherwise has 0; of a 64-bit
  base only the low half is recorded (`PciBars.RecordIsRight`).

## Model

| member | source | states |
|---|---|---|
| PageRuns.FirstRunIsLowest | kernel/mm/pmm.c:137-159 | a search returns the lowest start of n free pages wholly inside its window, and nothing only when there is none |
| PageRuns.ScanReserved | kernel/mm/pmm.c:156-158 | meeting a reserved page rules out every start within reach of it |
| PageRuns.ScanSkip | kernel/mm/pmm.c:139-144 | skipping a stretch of reserved pages loses no run |
| Bitmap.SetReservesOne | kernel/mm/pmm.c:22 | BITMAP_SET reserves its page and changes no other |
| Bitmap.ClearFreesOne | kernel/mm/pmm.c:23 | BITMAP_CLEAR frees its page and changes no other |
| Bitmap.FullWord | kernel/mm/pmm.c:140 | the 32-bit word read through the cast is all ones exactly when its four bytes are 0xFF |
| Bitmap.FullWordMeansReserved | kernel/mm/pmm.c:134-142 | an all-ones word stands for 32 reserved pages |
| Bitmap.BitValues | kernel/mm/pmm.c:22-24 | bit i of a byte is worth 2^i: what setting and clearing it adds and takes away |
| MemoryMap.EndIsSum | kernel/mm/pmm.c:38-45 | the end of an entry is the sum of its four words modulo 2^32 |
| MemoryMap.FindTop | kernel/mm/pmm.c:35-50 | the result is the highest 32-bit end of a usable entry |
| MemoryMap.PlaceBitmap | kernel/mm/pmm.c:63-93 | the first usable entry with room at or above 1 MB, else the first with room not at 0, else none |
| MemoryMap.HomeMeans | kernel/mm/pmm.c:63-93 | in the raw words of the map: the first usable entry from 1 MB on that is long enough, without one the first long enough that does not start at 0, and none exactly when all of these start at 0 |
| MemoryMap.PagesLieInEntry | kernel/mm/pmm.c:101-110 | the pages cleared for an entry lie in it exactly when it starts at a page boundary below 4 GB or has no whole page |
| MemoryMap.PagesAreCounted | kernel/mm/pmm.c:101-110 | for every entry as many pages are cleared as its low length holds whole ones |
| MemoryMap.HasPageMeans | kernel/mm/pmm.c:101-110 | for an aligned entry below 4 GB a page is cleared exactly when the entry holds each of its bytes |
| PageAllocator.BitmapIsReserved | kernel/mm/pmm.c:112-119 | every page of the map that holds a byte of the bitmap is reserved exactly when the place is safe: it ends in the pages counted for it, or the next page is none that is freed |
| PageAllocator.UnalignedMapStarts | kernel/mm/pmm.c:112-119 | a map on which start-up leaves a page free that holds the end of the bitmap |
| PageAllocator.AlignedHome | kernel/mm/pmm.c:63-119 | a page-aligned place is safe, and its pages are pages of the map exactly when the last one ends within the map |
| PageAllocator.FreePagesAreUsable | kernel/mm/pmm.c:94-122 | after start-up a page is free exactly when it is not page 0, is not counted for the bitmap, and a usable entry holds each of its bytes |
| PageAllocator.MarkedBits | kernel/mm/pmm.c:22 | the byte that a mark behind the bitmap changes: which bit of it, and no other |
| PageAllocator.Allocator.FreeUsable | kernel/mm/pmm.c:98-110 | exactly the pages covered by a usable entry become free; which these are is in MemoryMap.HasPageMeans and PageAllocator.FreePagesAreUsable |
| PageAllocator.Allocator.Init | kernel/mm/pmm.c:28-125 | for every memory map, all three outcomes; on success the free pages are exactly those from 1 on that a usable entry covers, but for as many as the bitmap's size takes from the page it starts in; outside the bitmap exactly the marks that fall behind it are written |
| PageAllocator.MarksInside | kernel/mm/pmm.c:117-122 | marks for pages inside the bitmap leave everything else alone |
| PageAllocator.AlignedMapFits | kernel/mm/pmm.c:63-119 | on a map of whole pages below 4 GB they always are |
| PageAllocator.AlignedMapMarks | kernel/mm/pmm.c:63-119 | and all bytes that start-up writes exist if the memory of the map does |
| PageAllocator.Allocator.SkipFullWords | kernel/mm/pmm.c:139-144 | skipping whole words keeps what the scan knows, inside the bitmap and the limit |
| PageAllocator.Allocator.Scan | kernel/mm/pmm.c:137-159 | one pass over the raw bitmap, with word skipping, finds what the naive search finds |
| PageAllocator.Allocator.Alloc | kernel/mm/pmm.c:127-191 | the bitmap code refines the reference allocation on page map and hint, and writes nothing but the bitmap |
| PageAllocator.Allocator.Free | kernel/mm/pmm.c:193-207 | exactly the n pages from the address on become free; the hint drops to them, and stays where it is if they are not below it (AllocatorRuns.NextAfterRelease) |
| AllocatorRuns.AllocationIsLowest | kernel/mm/pmm.c:137-188 | an allocation takes exactly a free run, the lowest at or above the hint, else the lowest wholly below it |
| AllocatorRuns.NullMeansStraddling | kernel/mm/pmm.c:137-190 | NULL exactly when every free run of that length straddles the hint |
| AllocatorRuns.SecondFailureIsFinal | kernel/mm/pmm.c:161-190 | a failure only resets the hint; a failure after a failure is one exactly when no run exists anywhere |
| AllocatorRuns.FirstFailureIsNotFinal | kernel/mm/pmm.c:161-190 | a memory map, the page map that start-up makes of it, and a run from there after which a request is refused although its pages are free |
| AllocatorRuns.AllocateThenFree | kernel/mm/pmm.c:149-206 | releasing a fresh block restores the page map and puts the hint at the block |
| AllocatorRuns.ReleasedHint | kernel/mm/pmm.c:193-207 | after any release the hint is at most the old one and at most the block, and it is one of the two |
| AllocatorRuns.NextAfterRelease | kernel/mm/pmm.c:127-207 | after a release at or above the hint the next request gets the lowest free run from the old hint on, if there is one; after one below it, the lowest from the block on |
| AllocatorRuns.ReleaseAboveHint | kernel/mm/pmm.c:193-207 | releases and requests for which this decides which page is handed out |
| AllocatorRuns.RunsAreAccounted | kernel/mm/pmm.c:121-207 | over every run: reserved pages = initially reserved plus live blocks, all disjoint |
| AllocatorRuns.BlocksAreSafe | kernel/mm/pmm.c:28-207 | after start-up and any run, every byte of a live block is below 4 GB and outside page 0 and all other blocks; outside the bitmap if that is in a safe place, and in usable memory if usable entries start at pages |
| AllocatorRuns.AfterInit | kernel/mm/pmm.c:28-207 | the same, and the bitmap reserved, for every run from the state that the start-up code leaves |
| AllocatorRuns.PcMapStarts | kernel/mm/pmm.c:28-125 | the memory map of a PC, whose base memory ends within a page, meets all conditions |
| AllocatorRuns.PcPagesAreFree | kernel/mm/pmm.c:98-122 | free after start-up on that map are exactly the pages 1 to 158, all whole pages of base memory but the first, and those above 1 MB behind the bitmap |
| AllocatorRuns.RunsKeepHome | kernel/mm/pmm.c:112-207 | with the bitmap in a safe place, page 0 and every page of the map that holds bitmap bytes are reserved after start-up and any run |
| AllocatorRuns.BlockMissesBitmap | kernel/mm/pmm.c:112-191 | an allocated block then lies in the memory of the map and does not meet the bitmap |
| AllocatorRuns.PackedIsFirstFit | kernel/mm/pmm.c:137-188 | with no free page below the hint, a one-page request is first-fit and NULL means memory is full |
| AllocatorRuns.SinglePageRunsStayPacked | kernel/mm/pmm.c:137-206 | runs of one-page requests and any releases never leave a free page below the hint |
| Disk.Drive.Read | kernel/drivers/ata.c:41-68 | exact bytes and status in every case: the sectors that are there arrive, count 0 and missing sectors fail |
| Disk.Drive.Write | kernel/drivers/ata.c:70-97 | exact bytes and status in every case: the sectors that are there are written, count 0 and missing sectors fail |
| KfsLayout.StrCmp | kernel/lib/string.c:19-25 | zero exactly when the two C strings are equal |
| KfsLayout.ExtentsAreDisjoint | kernel/fs/kfs.c:59-62 | in a laid-out superblock no two files share a sector and none has sector 0 |
| KfsLayout.AppendedMeans | kernel/fs/kfs.c:54-62 | one more entry keeps the layout and all earlier entries and decodes to name, size and first free sector |
| Kfs.Volume.Mount | kernel/fs/kfs.c:26-32 | succeeds exactly on a drive whose sector 0 has the magic, and then holds that sector |
| Kfs.Volume.Mkfs | kernel/fs/kfs.c:34-38 | an empty laid-out superblock whose other bytes are 0, in memory and in sector 0, and no other byte of the drive changed |
| Kfs.Volume.Find | kernel/fs/kfs.c:40-45 | the first entry with the name, or none exactly when no entry has it |
| Kfs.Volume.ReadFile | kernel/fs/kfs.c:47-52 | for every file, the sectors that arrive, of the count modulo 256, are at the front of the buffer; a missing file leaves it alone |
| Kfs.ReadableIsRead | kernel/fs/kfs.c:47-52 | a file of 1 to 255 existing sectors is read in full |
| Kfs.Volume.NextLba | kernel/fs/kfs.c:59-62 | the first sector after all earlier files |
| Kfs.Volume.WriteFile | kernel/fs/kfs.c:54-66 | a full table changes nothing; otherwise exactly the new entry is written, and on the drive the data sectors that are there, then sector 0, whose transfer alone decides the status |
| Kfs.RoomStores | kernel/fs/kfs.c:54-66 | with room for them, exactly the data sectors and sector 0 are written |
| KfsContents.HeldFileIsFound | kernel/fs/kfs.c:40-45 | a file the volume holds, of any size, is found by a name that no earlier one has |
| KfsContents.HeldFileIsRead | kernel/fs/kfs.c:40-52 | one of 1 to 255 sectors is transferred in one go and its sectors start with its bytes, whatever the other files are |
| KfsContents.WriteAddsFile | kernel/fs/kfs.c:54-66 | kfs_write turns a volume holding some files into one holding them and the new one, also after a remount |
| KfsContents.FormattedHoldsNothing | kernel/fs/kfs.c:34-38 | a formatted volume holds no files |
| KfsRuns.SuccessReadsBack | kernel/fs/kfs.c:54-66 | a write is reported as a success whenever sector 0 exists; the file then reads back exactly when it takes 1 to 255 sectors and they exist |
| KfsRuns.StepTracked | kernel/fs/kfs.c:26-66 | formatting, writing, with or without room, and remounting keep superblock, drive and the list of entries together |
| KfsRuns.EntriesStay | kernel/fs/kfs.c:26-66 | over every run without formatting no entry is lost or changed |
| KfsRuns.WrittenFilesStayReadable | kernel/fs/kfs.c:26-66 | over every run, a file written with room under a new name is found and read back until the next formatting |
| KfsRuns.DoFormat | kernel/fs/kfs.c:34-38 | kfs_mkfs is the formatting step of a run |
| KfsRuns.DoWrite | kernel/fs/kfs.c:54-66 | kfs_write is the writing step of a run |
| KfsRuns.DoRemount | kernel/fs/kfs.c:26-32 | kfs_mount succeeds at any point of a run and is its remounting step |
| ImageBuilder.BuildImage | scripts/genkfs.py:8-30 | the accumulating loop builds the image defined file by file, from the first eight files |
| ImageBuilder.EntriesDecode | scripts/genkfs.py:19-26 | each packed entry, read with the kernel's offsets, gives name, start sector and size |
| ImageBuilder.NameIsFilledUp | scripts/genkfs.py:19-26 | a name field is the first 32 bytes of the name, filled up with zeros |
| ImageBuilder.UnusedIsZero | scripts/genkfs.py:27-30 | behind the entries the superblock is zero |
| ImageBuilder.ImageExtent | scripts/genkfs.py:17-22 | the sectors of a file on the image are its bytes padded with zeros |
| ImageBuilder.ImageHoldsFiles | scripts/genkfs.py:8-30 | the image holds, in the kernel's reading, exactly the packed files |
| KfsEndToEnd.PackedFileIsFound | scripts/genkfs.py:8-30 | on a packed image every file, of any size, is found by its name and its sectors are its padded bytes |
| KfsEndToEnd.PackedFileIsReadable | scripts/genkfs.py:8-30 | a file of 1 to 255 sectors among them can be transferred in one go |
| KfsEndToEnd.PackMountRead | kernel/fs/kfs.c:26-52 | build, mount, find, read: the buffer gets the file's bytes and zero padding |
| KfsEndToEnd.PackMountReadRange | kernel/drivers/fb.c:14-33 | build, mount, find, read a range: the buffer gets exactly that range of the file, of any size |
| ByteRange.CopyLengthIsRight | kernel/drivers/fb.c:15-16 | the length copied is right exactly unless the end of the range wraps into the file |
| ByteRange.CopyLoop | kernel/drivers/fb.c:17-31 | the loop copies what arrives of any unaligned byte range, sector by sector until one is missing, and nothing else |
| ByteRange.GatheredIsAll | kernel/drivers/fb.c:21-31 | a range is copied in full exactly when every sector that holds a byte of it can be read |
| ByteRange.GatheredStops | kernel/drivers/fb.c:21-31 | if one cannot be, nothing of it or of a later one arrives |
| ByteRange.ReadRange | kernel/drivers/fb.c:14-33 | exact status and bytes in every case: what arrives of the range, until a sector is missing |
| ByteRange.FileRangeIsRead | kernel/drivers/fb.c:14-33 | of a file whose own sectors exist, exactly the range is read, cut at the end of the file, unless the length goes wrong |
| ByteRange.WrappingRange | kernel/drivers/fb.c:15-16 | a range for which it does |
| ByteRange.RangeIsOfTheFile | kernel/drivers/fb.c:14-33 | for a held file of any size the copied range is that range of its bytes and of its sectors |
| ByteRange.HeldRangeIsRead | kernel/drivers/fb.c:14-33 | reading a range of a held file gives that range of its bytes, cut at its end |
| UexFormat.HeaderReadsBack | scripts/pack_uex.py:11-18 | the loader's header fields are the packed ones |
| UexFormat.PackedBytes | scripts/pack_uex.py:11-18 | a packed file is the magic, the load address twice, the two sizes, no flags, and the program, byte for byte |
| UexFormat.ReadsOwnExtent | kernel/exe/uex.c:53-66 | the loader reads exactly as many sectors as the packed file has |
| UexFormat.LoadStaysInside | kernel/exe/uex.c:53-69 | writes stay within memSize exactly when the size modulo 4096 is in 1..4072, or 0 bytes are loaded, or more than 255 sectors are left to read; they run over by at most 488 bytes |
| Uex.Loader.CopyBody | kernel/exe/uex.c:53-66 | first chunk and as many of the remaining sectors as arrive, one behind the other; fails exactly when the latter cannot all be read |
| Uex.Loader.LoadAt | kernel/exe/uex.c:53-69 | the body, then zeros from the end of the file to the end of the memory, nothing else |
| Uex.InspectMeans | kernel/exe/uex.c:28-35 | on the bytes of the drive: refused are exactly the files shorter than 24 bytes, those whose first sector cannot be read, and those that do not begin with "EXU1"; of others the header is the words that follow |
| Uex.Loader.UexExec | kernel/exe/uex.c:24-76 | status, entry, allocation, and memory with the bitmap in it, for every way through the loader; a refused file gives its status and leaves the machine as it is |
| Uex.ExecBalance | kernel/lib/exec.c:5-18 | the page map is as before exactly when nothing is loaded, or what is written to the bitmap is what the page map has and no allocated page stays marked |
| Uex.ClearOfBitmap | kernel/exe/uex.c:37-69 | a load clear of the bitmap spares it, and loses pages exactly when pages were allocated and the remaining sectors cannot be read |
| Uex.Loader.Exec | kernel/lib/exec.c:5-18 | succeeds exactly when the program can be placed and its sectors read, and not on a refused file, which changes nothing; page map as above |
| UexCorrect.PackedIsAccepted | kernel/exe/uex.c:25-35 | a packed program on the volume passes all checks of its first sector |
| UexCorrect.LoadMeans | kernel/exe/uex.c:33-76 | a success, for any header in a sector the drive can address: the file begins with the magic, and entry point, page count and every byte of memory from the load address on are what the words and bytes on the drive say |
| UexCorrect.FailureMeans | kernel/exe/uex.c:38-66 | a failure of a file that begins with the magic: out of memory exactly when it gets no place, an I/O error exactly when sectors are to follow and one is missing or the 8-bit count is 0 |
| UexCorrect.LoaderIsCorrect | kernel/exe/uex.c:24-76 | a packed program of any size: success, entry at its first byte, and the whole program followed by zeros exactly up to 255 remaining sectors, cut off above |
| UexCorrect.WritesStayInBlock | kernel/exe/uex.c:38-69 | an allocated program is written within its own pages exactly when its size modulo 4096 is in 1..4072 or it has more than 255 remaining sectors |
| UexCorrect.AllocatedProgramKeepsMap | kernel/lib/exec.c:5-18 | a packed program that stays within its allocated pages leaves the page map as it is exactly unless the number of its sectors after the first is a positive multiple of 256 |
| UexCorrect.ProgramsKeepMapOverRuns | kernel/lib/exec.c:5-18 | so it is after start-up and any run of allocations and releases, with the bitmap in a safe place |
| UexCorrect.PagesAreLost | kernel/lib/exec.c:5-18 | a program of 131073 bytes does not run and its 33 pages stay reserved |
| UexCorrect.LoadOverBitmap | kernel/exe/uex.c:37-69 | a program whose load address is the bitmap's is written over it; with bit 0 of its first byte clear that frees page 0 |
| UexCorrect.ZeroByteOverBitmap | kernel/exe/uex.c:37-69 | a program of one zero byte does so and is loaded with success |
| UexEndToEnd.TrackedIsOnVolume | kernel/exe/uex.c:24-35 | a packed program stored by kfs_write at any point of a run is one the loader accepts |
| UexEndToEnd.PackMountExec | kernel/exe/uex.c:24-76 | pack, build, mount, load by name, for programs and other files of any size: the loader's outcome as above, for one transfer the whole program in memory, entered at its first byte |
| FbLogo.FbLogo | kernel/drivers/fb.c:59-96 | the status for every kind of file; when there is memory for them the pixels that arrive are in the buffer; on every way out the page map is as before, and nothing but the buffer and the bitmap has been written |
| FbLogo.ReadHeaders | kernel/drivers/fb.c:62-70 | -2 when the headers cannot be read, -3 without "BM", -4 for other than uncompressed 24-bit pixels |
| FbLogo.HeldHeaders | kernel/drivers/fb.c:62-76 | for a held file of at least 54 bytes the verdict is on its own first 54 bytes |
| FbLogo.ImageSizeMeans | kernel/drivers/fb.c:72-74 | the size read is a line of 24-bit pixels padded to four bytes, times the number of lines, modulo 2^32, for lines whose length does not wrap |
| FbLogo.ReadyAfterRuns | kernel/mm/pmm.c:112-207 | what it takes for granted holds after start-up, with the bitmap in a safe place, and any run of requests |
| ContextSwitch.SwitchSaves | kernel/core/switch.S:1-9 | the cell gets the address of a frame holding the callee-saved registers and the return address |
| ContextSwitch.SwitchThereAndBack | kernel/core/switch.S:1-15 | switching away and back acts like a plain return |
| ContextSwitch.Cpu.Swtch | kernel/core/switch.S:1-15 | the eleven pushes, moves and pops do what the switch function says |
| KernelCode.TaskSpawn | kernel/sched/sched.c:33-55 | the first unused slot gets the frame, or -1 and nothing changes |
| KernelCode.SchedulerTurn | kernel/sched/sched.c:61-70 | one turn of the loop is a skip or a dispatch step |
| KernelCode.CallYield | kernel/sched/sched.c:74-79 | a call of yield is a yield step, or a plain return when no task is current |
| KernelCode.SchedInit | kernel/sched/sched.c:81-88 | no slot is used, no task is current |
| KernelCode.SpawnAtBoot | kernel/sched/sched.c:33-55 | spawning before the scheduler runs adds a parked slot with a fresh frame and leaves the other slots alone |
| KernelCode.Boot | kernel/core/init.c:100-104 | sched_init, two spawns and entering the scheduler establish what the theorems about runs and about order start from |
| Scheduler.DispatchResumes | kernel/sched/sched.c:63-67 | a dispatch saves the scheduler's context, writes nothing else but the slot's state and current, and resumes the task's context |
| Scheduler.YieldResumes | kernel/sched/sched.c:67-78 | a yield saves the task's context below its stack pointer and resumes the scheduler's |
| SchedulerRuns.SpawnWrites | kernel/sched/sched.c:42-54 | the built frame is the one swtch pops: cleared registers, then fn; other slots are untouched |
| SchedulerRuns.SpawnAnswers | kernel/sched/sched.c:33-55 | a spawn answers the slot it took, which is runnable then, or -1 when all are used |
| SchedulerRuns.After | kernel/sched/sched.c:33-79 | every event is possible and keeps the invariant: one RUNNING slot, it is current and on its own stack, used slots a prefix, all others parked |
| SchedulerRuns.RunLeavesSlot | kernel/sched/sched.c:57-79 | over any run a task that is away keeps its whole slot |
| SchedulerRuns.YieldIsTransparent | kernel/sched/sched.c:74-79 | whatever runs in between, a returning yield finds registers, stack pointer, stack and return point as they were |
| SchedulerRuns.DispatchIsTransparent | kernel/sched/sched.c:66-69 | the same for the scheduler from a dispatch to the yield that ends it; its loop goes on with the next slot |
| SchedulerRuns.SpawnedTaskStarts | kernel/sched/sched.c:42-54 | however long it waits, a spawned task starts at fn with cleared callee-saved registers |
| RoundRobin.RunsAreRoundRobin | kernel/sched/sched.c:61-71 | over every run each dispatch is of the slot next in order among the used ones |
| RoundRobin.SweepIsInOrder | kernel/sched/sched.c:62-70 | a sweep dispatches every used slot exactly once, in index order |
| RoundRobin.EveryoneElseRuns | kernel/sched/sched.c:61-70 | between two dispatches of a slot every other one used by then is dispatched |
| RoundRobin.SpawnedRunsFirst | kernel/sched/sched.c:33-79 | in every run after a spawn, any dispatch of the spawner comes after one of the spawned task |
| RoundRobin.TurnWithinEight | kernel/sched/sched.c:36-70 | bounded waiting: a used slot is dispatched again within the next eight dispatches, whatever is spawned meanwhile |
| RoundRobin.LoneYieldReturns | kernel/sched/sched.c:57-79 | a yield of the only task comes back to its caller, after at most seven skipped slots, with everything as it was |
| RoundRobin.DispatchComes | kernel/sched/sched.c:62-64 | with any slot used, a dispatch comes after at most seven skipped slots, of the right slot |
| Keyboard.InterruptAppends | kernel/drivers/keyboard.c:27-42 | the handler appends the translated character, and loses it exactly when 255 are pending |
| Keyboard.TakeRemovesOldest | kernel/drivers/keyboard.c:45-47 | reading at the tail and advancing it takes the oldest pending character |
| Keyboard.Driver.KeyboardIrq | kernel/drivers/keyboard.c:27-42 | the handler code does the handler step |
| Keyboard.Driver.GetKey | kernel/drivers/keyboard.c:44-49 | without interrupts: the oldest pending character, or 0 exactly when none is pending |
| Keyboard.TakeInterrupt | kernel/drivers/keyboard.c:27-42 | the handler, taken anywhere in get_key, is the interrupt event of a run |
| Keyboard.DigitRow | kernel/drivers/keyboard.c:12-24 | the digits and what shift makes of them, and backspace, at their codes |
| Keyboard.UpperRow | kernel/drivers/keyboard.c:12-24 | q to p in both cases, and newline |
| Keyboard.HomeRow | kernel/drivers/keyboard.c:12-24 | a to l in both cases |
| Keyboard.LowerRow | kernel/drivers/keyboard.c:12-24 | z to m in both cases, and the space |
| Keyboard.CaseFollowsShift | kernel/drivers/keyboard.c:12-34 | no scan gives a capital with the shift flag down, or a small letter with it set |
| Keyboard.SilentScans | kernel/drivers/keyboard.c:27-33 | key releases, the shift keys and interrupts without a byte give no character |
| Keyboard.OtherStatusBits | kernel/drivers/keyboard.c:28-29 | of the status port only bit 0 matters |
| Keyboard.ShiftedThenPlain | kernel/drivers/keyboard.c:27-42 | shift, a key, shift released, the same key: the shifted character and then the plain one |
| Keyboard.GetKeyInSteps | kernel/drivers/keyboard.c:44-49 | a call that is not interrupted is what the reader's single steps do from outside back to outside |
| Keyboard.EventKeepsConsistent | kernel/drivers/keyboard.c:27-49 | every interleaving keeps the reader's hold on the oldest character |
| Keyboard.InterruptSafeFifo | kernel/drivers/keyboard.c:27-49 | over every interleaving: delivered plus pending = kept characters in order, and translation depends on the scancodes alone |
| Keyboard.NothingIsLost | kernel/drivers/keyboard.c:35-41 | if 255 were never pending, everything typed is delivered or pending, in order |
| Tokens.SplitIsCut | kernel/lib/string.c:49-63 | splitting gives delimiter-free tokens, one more than delimiters |
| Tokens.SplitThenJoin | kernel/lib/string.c:49-63 | rejoined with the delimiters that were cut out they are the text again |
| Tokens.JoinThenSplit | kernel/lib/string.c:49-63 | it is the only way to cut a text into such tokens |
| Tokens.StrChr | kernel/lib/string.c:41-47 | the first place of the character in the C string, or none exactly when it does not occur |
| Tokens.Tokenizer.StrTok | kernel/lib/string.c:49-63 | one call returns the token's start, writes at most the one NUL and remembers the place behind it |
| Tokens.AllTokens | kernel/lib/string.c:49-63 | calling until NULL yields exactly the tokens of the split, all of them still readable in the buffer |
| Shell.EditLine | kernel/core/shell.c:30-56 | the loop on buffer and index refines the edits on line and what lies behind it |
| Shell.TypedMarks | kernel/core/shell.c:30-56 | exactly the places the cursor ever passed, bar the closing NUL, are not blank |
| Shell.ErasingCancels | kernel/core/shell.c:38-52 | a character that is typed and erased again, in a line that has room for it, makes no difference to the line or to what follows |
| Shell.CharacterIsAdded | kernel/core/shell.c:38-52 | a character is added to the end of a line with room for it, whatever was erased there before |
| Shell.NothingToErase | kernel/core/shell.c:40-44 | a backspace on an empty line changes nothing |
| Shell.EndsLine | kernel/core/shell.c:38-52 | a line ends exactly with a newline or with a character typed at length 127 |
| Shell.Correction | kernel/core/shell.c:38-52 | a, b, backspace, c, newline is the line "ac" |
| Shell.LineReads | kernel/core/shell.c:30-56 | a C string reader finds the typed line in the buffer |
| Shell.CutLeavesWord | kernel/core/shell.c:18 | cutting the line at its first space keeps the first word and does nothing a second time |
| Shell.CmdComp | kernel/core/shell.c:18 | the comparison is with the first word, and the line is cut at its first space |
| Shell.Dispatch | kernel/core/shell.c:58-100 | however many destructive comparisons are made, the first command that equals the first typed word is chosen |
| Shell.ArgumentIs | kernel/core/shell.c:71-100 | the argument is the rest of the line behind the space; without a space it is empty exactly when no longer draft was typed |
| Shell.ReadCommand | kernel/core/shell.c:28-100 | from the keys to the command: the first name that is the first typed word is chosen, and the string at its argument pointer is as above |
| Shell.ErasedTextIsArgument | kernel/core/shell.c:38-52 | text typed behind a command and erased again is still the command's argument, bar its first character |
| ShellCommands.CatFits | kernel/core/shell.c:79-83 | the whole sectors of a file that cat accepts fit its buffer and one transfer |
| ShellCommands.Cat | kernel/core/shell.c:75-91 | not found, too large, I/O error or the bytes printed, for every file |
| ShellCommands.CatPrintsStored | kernel/core/shell.c:75-91 | a stored file is printed exactly if it is not empty and has at most 8192 bytes |
| ShellCommands.TouchedFileGivesError | kernel/core/shell.c:72-91 | a file just made by touch gives an I/O error |
| Numerals.ValueOfNumeral | kernel/lib/io.c:61-75 | a printed numeral stands for the number |
| Numerals.HexDigits | kernel/lib/io.c:111-133 | a hexadecimal numeral consists of 0 to 9 and a to f |
| Numerals.WordLength | kernel/lib/io.c:52-114 | the digits of a 32-bit number fit the digit buffers |
| Numerals.PutDigits | kernel/lib/io.c:61-69 | the digit loop leaves the numeral backwards in a buffer it never overruns |
| Numerals.PrintInt | kernel/lib/io.c:50-75 | %d prints sign and magnitude of every 32-bit number, INT_MIN included |
| Numerals.PrintHex | kernel/lib/io.c:111-133 | %x prints the hexadecimal numeral |
| Numerals.Utoa | kernel/core/log.c:6-14 | utoa writes the decimal numeral |
| Numerals.Atoi | kernel/lib/string.c:4-11 | on digits atoi computes their value in a 32-bit word |
| Numerals.PrintThenParse | kernel/lib/string.c:4-11 | parsing a printed number gives it back exactly when it is below 2^31 |
| Numerals.ParseThenPrint | kernel/core/log.c:6-14 | printing the value of a number without leading zeros gives its digits back |
| Numerals.StampFits | kernel/core/log.c:16-35 | the time stamp takes at most 17 of the buffer's 33 characters, and its NUL |
| Numerals.Ts | kernel/core/log.c:16-35 | the buffer holds seconds, a point, three digits of milliseconds, and a NUL |
| Numerals.ThreeDigitsValue | kernel/core/log.c:29-31 | the three digits stand for the milliseconds |
| Numerals.StampMeans | kernel/core/log.c:16-35 | 1000 times the seconds of the stamp plus its milliseconds is the tick count |
| PciBars.WriteBack | kernel/drivers/pci.c:103-106 | writing ones and then the old value leaves a register as it was |
| PciBars.ConfigSpace.ProbeBar | kernel/drivers/pci.c:91-164 | one turn of the loop records a register, or a pair at once, and restores what it probes |
| PciBars.ConfigSpace.ProbeBars | kernel/drivers/pci.c:90-165 | all six registers end as they began, each is recorded for what it is, upper halves only with their pair |
| PciBars.MemoryAnswer | kernel/drivers/pci.c:155-161 | a 32-bit memory register of any size: exactly that size is computed, before it is narrowed |
| PciBars.LongAnswer | kernel/drivers/pci.c:123-144 | both answers of a 64-bit pair together: exactly its size is computed, before it is narrowed |
| PciBars.LastHalfIsShort | kernel/drivers/pci.c:120-161 | a 64-bit register without a successor is recorded as a 32-bit one |
| PciBars.RegionsAreRecorded | kernel/drivers/pci.c:90-165 | whatever regions a device asks for, each that does not read 0 has its size computed in full, and its low eight bits and the low 32 bits of the base recorded; others count as unused |
| PciBars.RecordIsRight | kernel/drivers/pci.h:6-10 | the recorded size is the real one exactly below 256 and if the register does not read 0, and else 0; the base exactly when it is below 4 GB |

## Left out

- Port input and output, busy waiting and hardware errors of the ATA driver: a drive completes every transfer of sectors it has and reports an error for others.
- The boot sector, BIOS calls, interrupt stubs and PIC/PIT programming.
- The allocator after `pmm_init` found no place for its bitmap, or on a map without pages.
- P2V and V2P: on this target both are the identity, since the offset is 0 modulo 2^32.
- Clients of the allocator that release blocks they do not own, or with another page count.
- The bytes between the 328-byte superblock object and the end of its sector in memory: the superblock is a whole sector here.
- Names of 32 bytes or more, superblocks with a file count above 8, and packed files of more than 2^32 - 512 bytes, whose sectors the kernel miscounts.
- Uex.Loader.Exec: the program that runs is taken to change nothing of the memory and variables modelled; its own effects are not modelled. `execv` differs only in passing arguments.
- Uex.Loader.UexExec: loads over the kernel's own image and stack, which hold the code that runs, its variables and the superblock; these are not part of the modelled memory.
- FbLogo.FbLogo: the copy of pixels to the screen.
- SchedulerRuns.After: tasks never return, write only on their own stack and outside the table, and leave eight words of stack for a call of yield; interrupts during task code are not modelled.
- The order in which the C compiler reads the two volatile indices in get_key, and several readers at once.
- Tokens.Tokenizer.StrTok: one buffer at a time; the remembered pointer is an offset into it.
- Numerals.Atoi: signed overflow, which C leaves undefined, is taken to wrap.
- Numerals.PrintInt: the other conversions of printf, and the size of its output buffer.
- Shell.ReadCommand: what the commands other than `cat` do once they are chosen; the drawing of the typed characters.
- PciBars.ConfigSpace.ProbeBars: I/O registers whose upper half is wired to 0; the rest of the configuration space and the enumeration of devices.
- The framebuffer, fonts, TTY, VGA, panic, power and version text, floating point.
