/** The program loader and the `exec` call around it. */
module Uex {
  import opened Options
  import opened Words
  import opened Memory
  import opened Disk
  import opened KfsLayout
  import opened Kfs
  import opened MemoryMap
  import opened Bitmap
  import opened PageRuns
  import opened PageAllocator
  import opened AllocatorRuns
  import opened UexFormat

  const ERR_IO: int := 2
  const ERR_FORMAT: int := 3
  const ERR_OOM: int := 5

  /** What the first sector of a file says about it. */
  datatype Verdict = Rejected(status: int) | Accepted(h: Header)

  ghost function Inspect(image: seq<byte>, sb: seq<byte>, i: nat): Verdict
    requires |sb| == SECTOR && i < KFS_MAX_FILES
  {
    if Size(sb, i) < HEADER_SIZE then Rejected(ERR_FORMAT)
    else if !Transfers(image, StartLba(sb, i), 1) then Rejected(ERR_IO)
    else
      var h := HeaderOf(Extent(image, StartLba(sb, i) % LBA_LIMIT, 1));
      if h.magic != UEX_MAGIC then Rejected(ERR_FORMAT) else Accepted(h)
  }

  /** On the bytes of the drive: a file is refused if it is too short for a header, its first sector
      cannot be read, or it does not begin with the magic. */
  ghost function Refused(image: seq<byte>, sb: seq<byte>, i: nat): (r: Option<int>)
    requires |sb| == SECTOR && i < KFS_MAX_FILES
    ensures r.Some? ==> r.value != ERR_SUCCESS
  {
    var a := SECTOR * (StartLba(sb, i) % LBA_LIMIT);
    if Size(sb, i) < HEADER_SIZE then Some(ERR_FORMAT)
    else if a + SECTOR > |image| then Some(ERR_IO)
    else if image[a..a + 4] != [0x45, 0x58, 0x55, 0x31] then Some(ERR_FORMAT)
    else None
  }

  /** These files are the ones rejected; of the others the header is made of the words that follow. */
  lemma InspectMeans(image: seq<byte>, sb: seq<byte>, i: nat)
    requires |sb| == SECTOR && i < KFS_MAX_FILES
    ensures match Inspect(image, sb, i)
            case Rejected(s) => Refused(image, sb, i) == Some(s)
            case Accepted(h) =>
              var a := SECTOR * (StartLba(sb, i) % LBA_LIMIT);
              && Refused(image, sb, i) == None
              && h == Header(UEX_MAGIC, U32(image, a + 4), U32(image, a + 8), U32(image, a + 12), U32(image, a + 16),
                             U32(image, a + 20))
  {
    hide U32;
    var lba := StartLba(sb, i) % LBA_LIMIT;
    if Size(sb, i) >= HEADER_SIZE && SECTOR * lba + SECTOR <= |image| {
      HeaderOnDrive(image, lba);
      MagicBytes();
      WordIs(image, SECTOR * lba, UEX_MAGIC);
    }
  }

  lemma MagicBytes()
    ensures Le(UEX_MAGIC) == [0x45, 0x58, 0x55, 0x31]
  {
    assert LeBytes(0x31, 1) == [0x31] && LeBytes(0x3155, 2) == [0x55, 0x31];
    assert LeBytes(0x31_5558, 3) == [0x58, 0x55, 0x31];
  }

  lemma HeaderOnDrive(image: seq<byte>, lba: nat)
    requires SECTOR * lba + SECTOR <= |image|
    ensures var (s, a) := (Extent(image, lba, 1), SECTOR * lba);
            HeaderOf(s) == Header(U32(image, a), U32(image, a + 4), U32(image, a + 8), U32(image, a + 12),
                                  U32(image, a + 16), U32(image, a + 20))
  {
    WordOnDrive(image, lba, 0);
    WordOnDrive(image, lba, 4);
    WordOnDrive(image, lba, 8);
    WordOnDrive(image, lba, 12);
    WordOnDrive(image, lba, 16);
    WordOnDrive(image, lba, 20);
  }

  lemma WordOnDrive(image: seq<byte>, lba: nat, off: nat)
    requires SECTOR * lba + SECTOR <= |image| && off + 4 <= SECTOR
    ensures U32(Extent(image, lba, 1), off) == U32(image, SECTOR * lba + off)
  {
    var a := SECTOR * lba;
    SliceOfSlice(image, a, a + SECTOR, off, off + 4, a + off, a + off + 4);
  }

  /** Pages asked for, in 32-bit arithmetic: enough and not one too many, unless the sum wraps. */
  function PageCount(memSize: uint32): (n: nat)
    ensures memSize + 4095 < WORD_LIMIT ==> n * PAGE_SIZE >= memSize && (n > 0 ==> (n - 1) * PAGE_SIZE < memSize)
    ensures memSize + 4095 >= WORD_LIMIT ==> n == 0
  {
    (memSize + 4095) % WORD_LIMIT / PAGE_SIZE
  }

  /** The sectors after the first, if any, can be transferred. */
  ghost predicate TailReadable(image: seq<byte>, lba: uint32, fileSize: uint32) {
    fileSize > FIRST_CHUNK ==> Transfers(image, (lba + 1) % WORD_LIMIT, TailCount(fileSize))
  }

  /** The bytes copied to the load address: the rest of the first sector as far as needed,
      then the sectors after it, as many as arrive. */
  ghost function Body(image: seq<byte>, lba: uint32, fileSize: uint32): (b: seq<byte>)
    requires Transfers(image, lba, 1)
    ensures |b| <= BodyBytes(fileSize) && (TailReadable(image, lba, fileSize) ==> |b| == BodyBytes(fileSize))
  {
    var first := Extent(image, lba % LBA_LIMIT, 1)[HEADER_SIZE..HEADER_SIZE + FirstChunk(fileSize)];
    if fileSize <= FIRST_CHUNK then first else first + Tail(image, lba, fileSize)
  }

  ghost function Tail(image: seq<byte>, lba: uint32, fileSize: uint32): seq<byte>
    requires fileSize > FIRST_CHUNK
  {
    Delivered(image, (lba + 1) % WORD_LIMIT, TailCount(fileSize))
  }

  /** Memory after a load at `dest`: the body, and zeros from the end of the program to the
      end of its memory. */
  ghost predicate Loaded(before: seq<byte>, after: seq<byte>, dest: nat, body: seq<byte>, h: Header) {
    && dest + |body| <= |before| && (h.memSize > h.fileSize ==> dest + h.memSize <= |before|)
    && after == (if h.memSize > h.fileSize
                 then Overlay(Overlay(before, dest, body), dest + h.fileSize, Zeros(h.memSize - h.fileSize))
                 else Overlay(before, dest, body))
  }

  /** Memory after a load that broke off: what arrived of the body. */
  ghost predicate BrokenOff(before: seq<byte>, after: seq<byte>, dest: nat, body: seq<byte>) {
    dest + |body| <= |before| && after == Overlay(before, dest, body)
  }

  /** Memory, and the allocator's variables; the bitmap is part of memory. */
  datatype Machine = Machine(mem: seq<byte>, home: nat, maxPages: nat, hint: nat) {
    ghost predicate Valid() {
      home + BitmapSize(maxPages) <= |mem| && hint <= maxPages < 0x10_0000
    }

    ghost function State(): (st: AllocState)
      requires Valid()
      ensures st.Valid() && |st.used| == maxPages
    {
      AllocState(PagesIn(mem, home, maxPages), hint)
    }
  }

  /** Where a program goes, 0 meaning nowhere. */
  ghost function Destination(h: Header, st: AllocState): nat
    requires st.Valid()
  {
    if h.loadAddr != 0 then h.loadAddr else AddressOf(Allocated(st, PageCount(h.memSize)).1)
  }

  /** Memory exists as far as a load writes. */
  ghost predicate RoomFor(image: seq<byte>, sb: seq<byte>, i: nat, m: Machine)
    requires |sb| == SECTOR && i < KFS_MAX_FILES && m.Valid()
  {
    match Inspect(image, sb, i)
    case Rejected(_) => true
    case Accepted(h) => Destination(h, m.State()) + Reach(h) <= |m.mem|
  }

  /** The machine once the program's place is chosen: unchanged when the header names it,
      otherwise with pages allocated, which writes to the bitmap only. */
  ghost predicate Placed(m: Machine, p: Machine, h: Header)
    requires m.Valid()
  {
    && p.Valid() && p.home == m.home && p.maxPages == m.maxPages
    && if h.loadAddr != 0 then p == m
       else
         var (st, r) := Allocated(m.State(), PageCount(h.memSize));
         && p.State() == st && (r.None? ==> p.mem == m.mem)
         && SameOutside(m.mem, p.mem, m.home, BitmapSize(m.maxPages))
  }

  /** What uexExec does with a program it has found a place for. */
  ghost predicate LoadedOrNot(image: seq<byte>, lba: uint32, h: Header, dest: nat, mem0: seq<byte>, mem1: seq<byte>,
                              status: int, entry: nat)
    requires Transfers(image, lba, 1)
  {
    if TailReadable(image, lba, h.fileSize) then
      && status == ERR_SUCCESS && Loaded(mem0, mem1, dest, Body(image, lba, h.fileSize), h)
      && entry == (if h.loadAddr == 0 then (dest + h.entry) % WORD_LIMIT else h.entry)
    else status == ERR_IO && BrokenOff(mem0, mem1, dest, Body(image, lba, h.fileSize))
  }

  /** Everything uexExec does for entry i: its status, entry point and allocation, and the
      machine before (m0), with the program's place chosen (p), and after (m1). */
  ghost predicate Executed(image: seq<byte>, sb: seq<byte>, i: nat, m0: Machine, p: Machine, m1: Machine,
                           status: int, entry: nat, base: nat, n: nat)
    requires |sb| == SECTOR && i < KFS_MAX_FILES && m0.Valid()
  {
    match Inspect(image, sb, i)
    case Rejected(s) => status == s && m1 == m0
    case Accepted(h) =>
      var dest := Destination(h, m0.State());
      && Placed(m0, p, h)
      && base == (if h.loadAddr != 0 then 0 else dest)
      && n == (if h.loadAddr != 0 then 0 else PageCount(h.memSize))
      && if dest == 0 then status == ERR_OOM && m1 == p
         else m1 == p.(mem := m1.mem) && LoadedOrNot(image, StartLba(sb, i), h, dest, p.mem, m1.mem, status, entry)
  }

  /** The loader. The allocator's memory, with the bitmap in it, is the memory it loads into. */
  class Loader {
    const volume: Volume
    const mem: array<byte>
    const pages: Allocator

    ghost predicate Valid()
      reads this, volume, volume.sb, pages
    {
      && volume.Valid() && volume.Terminated() && pages.Valid()
      && pages.mem == mem && mem != volume.sb && mem != volume.drive.data
    }

    constructor (volume: Volume, pages: Allocator)
      requires volume.Valid() && volume.Terminated() && pages.Valid()
      requires pages.mem != volume.sb && pages.mem != volume.drive.data
      ensures Valid() && this.volume == volume && mem == pages.mem && this.pages == pages
    {
      this.volume, mem, this.pages := volume, pages.mem, pages;
    }

    ghost function State(): (m: Machine)
      requires Valid()
      reads this, volume, volume.sb, pages, mem
      ensures m.Valid() && m.State() == pages.State()
    {
      Machine(mem[..], pages.home, pages.maxPages, pages.lastFreePage)
    }

    /** Copy the program of file i to `dest` and clear the rest of its memory. */
    method LoadAt(dest: nat, h: Header, secbuf: array<byte>, lba: uint32) returns (ok: bool)
      requires secbuf != mem && mem != volume.drive.data && secbuf.Length == SECTOR
      requires Transfers(volume.drive.data[..], lba, 1)
      requires secbuf[..] == Extent(volume.drive.data[..], lba % LBA_LIMIT, 1)
      requires dest + Reach(h) <= mem.Length
      modifies mem
      ensures ok <==> TailReadable(volume.drive.data[..], lba, h.fileSize)
      ensures ok ==> Loaded(old(mem[..]), mem[..], dest, Body(volume.drive.data[..], lba, h.fileSize), h)
      ensures !ok ==> BrokenOff(old(mem[..]), mem[..], dest, Body(volume.drive.data[..], lba, h.fileSize))
    {
      ok := CopyBody(dest, h.fileSize, secbuf, lba);
      if ok && h.memSize > h.fileSize {
        MemSet(mem, dest + h.fileSize, h.memSize - h.fileSize);
      }
    }

    method CopyBody(dest: nat, fileSize: uint32, secbuf: array<byte>, lba: uint32) returns (ok: bool)
      requires secbuf != mem && mem != volume.drive.data && secbuf.Length == SECTOR
      requires Transfers(volume.drive.data[..], lba, 1)
      requires secbuf[..] == Extent(volume.drive.data[..], lba % LBA_LIMIT, 1)
      requires dest + BodyBytes(fileSize) <= mem.Length
      modifies mem
      ensures ok <==> TailReadable(volume.drive.data[..], lba, fileSize)
      ensures mem[..] == Overlay(old(mem[..]), dest, Body(volume.drive.data[..], lba, fileSize))
    {
      var toCopy, copied := fileSize, 0;
      ghost var sector := secbuf[..];
      if toCopy > 0 {
        copied := if toCopy < FIRST_CHUNK then toCopy else FIRST_CHUNK;
      }
      MemCpy(mem, dest, secbuf, HEADER_SIZE, copied);
      assert secbuf[HEADER_SIZE..HEADER_SIZE + copied] == sector[HEADER_SIZE..HEADER_SIZE + copied];
      ok := true;
      if copied < toCopy {
        ghost var mid := mem[..];
        ok := ReadTail(dest + copied, fileSize, lba);
        ghost var image := volume.drive.data[..];
        OverlayJoins(old(mem[..]), dest, sector[HEADER_SIZE..HEADER_SIZE + FIRST_CHUNK], Tail(image, lba, fileSize),
                     dest + copied);
      }
    }

    /** The sectors after the first one, straight into memory. */
    method ReadTail(to: nat, fileSize: uint32, lba: uint32) returns (ok: bool)
      requires mem != volume.drive.data && fileSize > FIRST_CHUNK && to + SECTOR * TailCount(fileSize) <= mem.Length
      modifies mem
      ensures ok <==> TailReadable(volume.drive.data[..], lba, fileSize)
      ensures mem[..] == Overlay(old(mem[..]), to, Tail(volume.drive.data[..], lba, fileSize))
    {
      var remaining := fileSize - FIRST_CHUNK;
      var sectors := (remaining + 511) % WORD_LIMIT / SECTOR;
      var status := volume.drive.Read((lba + 1) % WORD_LIMIT, sectors % 256, mem, to);
      ok := status >= 0;
    }

    /** The first part of uexExec: read the first sector of file i, check the header. */
    method Open(i: nat) returns (v: Verdict, secbuf: array<byte>)
      requires Valid() && i < KFS_MAX_FILES
      ensures v == Inspect(volume.drive.data[..], volume.sb[..], i)
      ensures fresh(secbuf) && secbuf.Length == SECTOR
      ensures v.Accepted? ==>
                secbuf[..] == Extent(volume.drive.data[..], StartLba(volume.sb[..], i) % LBA_LIMIT, 1)
    {
      secbuf := new byte[SECTOR](_ => 0);
      if Size(volume.sb[..], i) < HEADER_SIZE {
        return Rejected(ERR_FORMAT), secbuf;
      }
      ghost var image, sb, lba := volume.drive.data[..], volume.sb[..], StartLba(volume.sb[..], i);
      var status := volume.drive.Read(StartLba(volume.sb[..], i), 1, secbuf, 0);
      assert volume.drive.data[..] == image && volume.sb[..] == sb;
      if status < 0 {
        return Rejected(ERR_IO), secbuf;
      }
      assert secbuf[..] == Extent(image, lba % LBA_LIMIT, 1);
      var h := HeaderOf(secbuf[..]);
      v := if h.magic != UEX_MAGIC then Rejected(ERR_FORMAT) else Accepted(h);
    }

    /** The middle part: the load address the header names, or newly allocated pages. */
    method Place(h: Header) returns (dest: nat, base: nat, n: nat)
      requires Valid()
      modifies pages`lastFreePage, mem
      ensures Valid() && Placed(old(State()), State(), h) && dest == Destination(h, old(State()).State())
      ensures base == if h.loadAddr != 0 then 0 else dest
      ensures n == if h.loadAddr != 0 then 0 else PageCount(h.memSize)
    {
      hide Allocated, PagesIn, BitmapSize, SameOutside;
      dest, base, n := h.loadAddr, 0, 0;
      if dest == 0 {
        n := (h.memSize + 4095) % WORD_LIMIT / PAGE_SIZE;
        dest := pages.Alloc(n);
        base := dest;
      }
    }

    /** uexExec on the file of entry i. */
    method ExecEntry(i: nat) returns (status: int, entry: nat, base: nat, n: nat, ghost p: Machine)
      requires Valid() && i < KFS_MAX_FILES && RoomFor(volume.drive.data[..], volume.sb[..], i, State())
      modifies mem, pages`lastFreePage
      ensures Valid()
      ensures Executed(volume.drive.data[..], volume.sb[..], i, old(State()), p, State(), status, entry, base, n)
    {
      hide LoadedOrNot, Placed, PagesIn, Allocated, HeaderOf;
      entry, base, n, p := 0, 0, 0, State();
      var v, secbuf := Open(i);
      if v.Rejected? {
        return v.status, entry, base, n, p;
      }
      ghost var image, sb := volume.drive.data[..], volume.sb[..];
      var dest;
      dest, base, n := Place(v.h);
      p := State();
      if dest == 0 {
        return ERR_OOM, entry, base, n, p;
      }
      status, entry := LoadPlaced(dest, v.h, secbuf, StartLba(volume.sb[..], i));
      assert volume.drive.data[..] == image && volume.sb[..] == sb;
    }

    /** The last part of uexExec: fill the memory at `dest`, and compute the entry point. */
    method LoadPlaced(dest: nat, h: Header, secbuf: array<byte>, lba: uint32) returns (status: int, entry: nat)
      requires secbuf != mem && mem != volume.drive.data && secbuf.Length == SECTOR
      requires Transfers(volume.drive.data[..], lba, 1)
      requires secbuf[..] == Extent(volume.drive.data[..], lba % LBA_LIMIT, 1)
      requires dest + Reach(h) <= mem.Length
      modifies mem
      ensures LoadedOrNot(volume.drive.data[..], lba, h, dest, old(mem[..]), mem[..], status, entry)
    {
      entry := 0;
      var ok := LoadAt(dest, h, secbuf, lba);
      if !ok {
        return ERR_IO, entry;
      }
      entry := if h.loadAddr == 0 then (dest + h.entry) % WORD_LIMIT else h.entry;
      return ERR_SUCCESS, entry;
    }

    /** uexExec. */
    method UexExec(name: seq<byte>) returns (status: int, entry: nat, base: nat, n: nat, ghost p: Machine)
      requires Valid() && 0 !in name
      requires forall k: nat :: FirstNamed(volume.sb[..], name, Some(k)) ==>
                 RoomFor(volume.drive.data[..], volume.sb[..], k, State())
      modifies mem, pages`lastFreePage
      ensures Valid()
      ensures FirstNamed(volume.sb[..], name, None) ==> status == ERR_NOT_FOUND && State() == old(State())
      ensures forall k: nat :: FirstNamed(volume.sb[..], name, Some(k)) ==>
                Executed(volume.drive.data[..], volume.sb[..], k, old(State()), p, State(), status, entry, base, n)
      ensures forall k: nat ::
                FirstNamed(volume.sb[..], name, Some(k)) && Refused(volume.drive.data[..], volume.sb[..], k).Some? ==>
                  Refused(volume.drive.data[..], volume.sb[..], k) == Some(status) && State() == old(State())
    {
      p := State();
      var k := volume.Find(name);
      if k.None? {
        return ERR_NOT_FOUND, 0, 0, 0, p;
      }
      ghost var sb := volume.sb[..];
      assert forall j: nat :: FirstNamed(sb, name, Some(j)) ==> j == k.value;
      InspectMeans(volume.drive.data[..], sb, k.value);
      status, entry, base, n, p := ExecEntry(k.value);
      assert volume.sb[..] == sb;
    }

    /** exec, around a program that changes nothing of the memory and variables modelled here. */
    method Exec(name: seq<byte>) returns (status: int)
      requires Valid() && 0 !in name && pages.maxPages > 0 && pages.State().used[0]
      requires forall k: nat :: FirstNamed(volume.sb[..], name, Some(k)) ==>
                 RoomFor(volume.drive.data[..], volume.sb[..], k, State())
      modifies mem, pages`lastFreePage
      ensures Valid() && (status == ERR_SUCCESS || status == ERR_FORMAT)
      ensures FirstNamed(volume.sb[..], name, None) ==> status == ERR_FORMAT && State() == old(State())
      ensures forall k: nat ::
                FirstNamed(volume.sb[..], name, Some(k)) && Refused(volume.drive.data[..], volume.sb[..], k).Some? ==>
                  status == ERR_FORMAT && State() == old(State())
      ensures forall k: nat :: FirstNamed(volume.sb[..], name, Some(k)) ==>
                && (status == ERR_SUCCESS <==> Runs(volume.drive.data[..], volume.sb[..], k, old(State())))
                && (pages.State().used == old(pages.State().used) <==>
                      KeepsMap(volume.drive.data[..], volume.sb[..], k, old(State())))
    {
      hide KeepsMap, Runs, Executed, Refused, RoomFor, PagesIn, Freed;
      ghost var image, sb, m0 := volume.drive.data[..], volume.sb[..], State();
      var r, entry, base, n, p := UexExec(name);
      ghost var m1 := State();
      if r == ERR_SUCCESS {
        if base != 0 {
          pages.Free(base, n);
        }
        status := ERR_SUCCESS;
      } else {
        status := ERR_FORMAT;
      }
      forall k: nat | FirstNamed(sb, name, Some(k))
        ensures status == ERR_SUCCESS <==> Runs(image, sb, k, m0)
        ensures pages.State().used == m0.State().used <==> KeepsMap(image, sb, k, m0)
      {
        ExecBalance(image, sb, k, m0, p, m1, r, entry, base, n, pages.State());
      }
    }
  }

  /** A program is found good, has a place, and can be read in full. */
  ghost predicate Runs(image: seq<byte>, sb: seq<byte>, i: nat, m: Machine)
    requires |sb| == SECTOR && i < KFS_MAX_FILES && m.Valid()
  {
    match Inspect(image, sb, i)
    case Rejected(_) => false
    case Accepted(h) => Destination(h, m.State()) != 0 && TailReadable(image, StartLba(sb, i), h.fileSize)
  }

  // ----- what exec does to the page map

  /** A load: its header, the bytes that are copied, whether all of them arrive, and where to. */
  datatype Load = Load(h: Header, body: seq<byte>, complete: bool, dest: nat) {
    /** The byte it puts at address a, if any. */
    ghost function ByteFor(a: nat): Option<byte> {
      if a < dest then None
      else if complete && dest + h.fileSize <= a < dest + h.memSize then Some(0)
      else if a < dest + |body| then Some(body[a - dest])
      else None
    }

    /** What it makes of the bit of page p in a bitmap at `home`, if it gets there. */
    ghost function BitFor(home: nat, p: nat): Option<bool> {
      match ByteFor(home + p / 8)
      case Some(b) => Some(TestBit(b, p % 8))
      case None => None
    }

    /** Page p is one of those allocated for the program. */
    ghost predicate OwnPage(p: nat) {
      h.loadAddr == 0 && dest / PAGE_SIZE <= p < dest / PAGE_SIZE + PageCount(h.memSize)
    }

    /** Wherever it writes to the bitmap, the bits are the ones that are there; those of its own
        pages do not matter if they are released later. */
    ghost predicate SparesBitmap(home: nat, used: seq<bool>) {
      forall p: nat :: p < |used| && !(complete && OwnPage(p)) ==> BitFor(home, p) in {None, Some(used[p])}
    }

    /** It is not completed, and so its pages are not released; it has left the mark of one. */
    ghost predicate LosesPage(home: nat) {
      !complete && exists p: nat :: OwnPage(p) && BitFor(home, p) == None
    }
  }

  ghost function LoadOf(image: seq<byte>, sb: seq<byte>, i: nat, h: Header, st: AllocState): Load
    requires |sb| == SECTOR && i < KFS_MAX_FILES && st.Valid() && Inspect(image, sb, i) == Accepted(h)
  {
    var lba := StartLba(sb, i);
    Load(h, Body(image, lba, h.fileSize), TailReadable(image, lba, h.fileSize), Destination(h, st))
  }

  /** exec of entry i leaves the page map as it is: nothing is loaded, or the load spares the
      bitmap and loses no page. */
  ghost predicate KeepsMap(image: seq<byte>, sb: seq<byte>, i: nat, m: Machine)
    requires |sb| == SECTOR && i < KFS_MAX_FILES && m.Valid()
  {
    match Inspect(image, sb, i)
    case Rejected(_) => true
    case Accepted(h) =>
      var load := LoadOf(image, sb, i, h, m.State());
      load.dest != 0 ==> load.SparesBitmap(m.home, m.State().used) && !load.LosesPage(m.home)
  }

  /** A load that stays clear of the bitmap spares it, and loses pages exactly when it is one
      into allocated pages and is not completed. */
  lemma ClearOfBitmap(load: Load, home: nat, used: seq<bool>)
    requires |load.body| <= BodyBytes(load.h.fileSize) && Apart(load.dest, Reach(load.h), home, BitmapSize(|used|))
    requires load.h.loadAddr == 0 ==> load.dest / PAGE_SIZE + PageCount(load.h.memSize) <= |used|
    ensures load.SparesBitmap(home, used)
    ensures load.LosesPage(home) <==> load.h.loadAddr == 0 && PageCount(load.h.memSize) > 0 && !load.complete
  {
    forall p: nat | p < |used| ensures load.BitFor(home, p) == None {
    }
    assert load.h.loadAddr == 0 && PageCount(load.h.memSize) > 0 ==> load.OwnPage(load.dest / PAGE_SIZE);
  }

  /** Memory after a load, byte by byte. */
  lemma LoadedByte(load: Load, before: seq<byte>, after: seq<byte>, a: nat)
    requires if load.complete then Loaded(before, after, load.dest, load.body, load.h)
             else BrokenOff(before, after, load.dest, load.body)
    requires a < |before|
    ensures |after| == |before|
    ensures after[a] == match load.ByteFor(a) case Some(b) => b case None => before[a]
  {
  }

  lemma LoadedBit(load: Load, before: seq<byte>, after: seq<byte>, home: nat, n: nat, p: nat)
    requires if load.complete then Loaded(before, after, load.dest, load.body, load.h)
             else BrokenOff(before, after, load.dest, load.body)
    requires home + BitmapSize(n) <= |before| && p < n
    ensures |after| == |before|
    ensures PagesIn(after, home, n)[p] ==
            match load.BitFor(home, p) case Some(x) => x case None => PagesIn(before, home, n)[p]
  {
    hide PagesIn, TestBit, Loaded, BrokenOff, Load.ByteFor;
    LoadedByte(load, before, after, home + p / 8);
    PageInMemory(before, home, n, p);
    PageInMemory(after, home, n, p);
  }

  /** Allocating for a program, with page 0 reserved: it takes pages exactly when it yields an address. */
  lemma AllocationTakes(st: AllocState, n: nat)
    requires st.Valid() && |st.used| > 0 && st.used[0]
    ensures var (st', r) := Allocated(st, n);
            && (AddressOf(r) == 0 ==> st'.used == st.used)
            && (AddressOf(r) != 0 ==>
                  && IsFreeRun(st.used, AddressOf(r) / PAGE_SIZE, n) && n > 0
                  && st'.used == Mark(st.used, AddressOf(r) / PAGE_SIZE, n, true)
                  && Freed(st', AddressOf(r) / PAGE_SIZE, n).used == st.used)
  {
    if n > 0 {
      AllocationIsLowest(st, n);
      if Allocated(st, n).1.Some? {
        AllocateThenFree(st, n);
      }
    }
  }

  /** The page map after the load, and the release that follows a completed one. */
  lemma MapAfterExec(load: Load, used0: seq<bool>, usedP: seq<bool>, used1: seq<bool>, used2: seq<bool>, home: nat)
    requires |used0| == |usedP| == |used1| == |used2|
    requires forall p: nat :: p < |used0| ==> usedP[p] == (used0[p] || load.OwnPage(p))
    requires forall p: nat :: load.OwnPage(p) ==> p < |used0| && !used0[p]
    requires forall p: nat :: p < |used0| ==>
               used1[p] == match load.BitFor(home, p) case Some(x) => x case None => usedP[p]
    requires forall p: nat :: p < |used0| ==> used2[p] == (used1[p] && !(load.complete && load.OwnPage(p)))
    ensures used2 == used0 <==> load.SparesBitmap(home, used0) && !load.LosesPage(home)
  {
    hide Load.BitFor, Load.OwnPage;
    if used2 == used0 {
      forall p: nat | p < |used0| && !(load.complete && load.OwnPage(p))
        ensures load.BitFor(home, p) in {None, Some(used0[p])}
      {
      }
    }
    if load.SparesBitmap(home, used0) && !load.LosesPage(home) {
      forall p: nat | p < |used0| ensures used2[p] == used0[p] {
        assert load.BitFor(home, p) == None && !load.complete ==> !load.OwnPage(p);
      }
    }
  }

  /** Choosing a place marks the program's own pages, which were free, and no others. */
  lemma PlacedMarks(load: Load, m: Machine, p: Machine)
    requires m.Valid() && m.maxPages > 0 && m.State().used[0] && Placed(m, p, load.h)
    requires load.dest == Destination(load.h, m.State()) != 0
    ensures forall k: nat :: k < m.maxPages ==> p.State().used[k] == (m.State().used[k] || load.OwnPage(k))
    ensures forall k: nat :: load.OwnPage(k) ==> k < m.maxPages && !m.State().used[k]
  {
    hide Allocated, PagesIn;
    if load.h.loadAddr == 0 {
      AllocationTakes(m.State(), PageCount(load.h.memSize));
    }
  }

  /** The page map after a load and, when it is completed, the release of the program's pages. */
  lemma LoadBalance(load: Load, m0: Machine, p: Machine, m1: Machine, st2: AllocState)
    requires m0.Valid() && m0.maxPages > 0 && m0.State().used[0] && Placed(m0, p, load.h)
    requires load.dest == Destination(load.h, m0.State()) != 0 && m1 == p.(mem := m1.mem)
    requires if load.complete then Loaded(p.mem, m1.mem, load.dest, load.body, load.h)
             else BrokenOff(p.mem, m1.mem, load.dest, load.body)
    requires m1.Valid()
    requires st2 == if load.complete && load.h.loadAddr == 0
                    then Freed(m1.State(), load.dest / PAGE_SIZE, PageCount(load.h.memSize)) else m1.State()
    ensures st2.used == m0.State().used <==> load.SparesBitmap(m0.home, m0.State().used) && !load.LosesPage(m0.home)
  {
    hide Allocated, PagesIn, Load.BitFor, Load.SparesBitmap, Load.LosesPage, Loaded, BrokenOff, Destination;
    PlacedMarks(load, m0, p);
    forall k: nat | k < m0.maxPages
      ensures m1.State().used[k] == match load.BitFor(m0.home, k) case Some(x) => x case None => p.State().used[k]
    {
      LoadedBit(load, p.mem, m1.mem, m0.home, m0.maxPages, k);
    }
    MapAfterExec(load, m0.State().used, p.State().used, m1.State().used, st2.used, m0.home);
  }

  /** When exactly `exec` succeeds, and when exactly it leaves the page map as it found it. */
  lemma ExecBalance(image: seq<byte>, sb: seq<byte>, i: nat, m0: Machine, p: Machine, m1: Machine,
                    status: int, entry: nat, base: nat, n: nat, st2: AllocState)
    requires |sb| == SECTOR && i < KFS_MAX_FILES && m0.Valid() && m0.maxPages > 0 && m0.State().used[0]
    requires Executed(image, sb, i, m0, p, m1, status, entry, base, n) && m1.Valid()
    requires st2 == if status == ERR_SUCCESS && base != 0 then Freed(m1.State(), base / PAGE_SIZE, n) else m1.State()
    ensures status == ERR_SUCCESS <==> Runs(image, sb, i, m0)
    ensures st2.used == m0.State().used <==> KeepsMap(image, sb, i, m0)
  {
    hide PagesIn, Body, TailReadable, Load.SparesBitmap, Load.LosesPage, Loaded, BrokenOff, Freed;
    match Inspect(image, sb, i)
    case Rejected(_) =>
    case Accepted(h) =>
      var load := LoadOf(image, sb, i, h, m0.State());
      if load.dest != 0 {
        LoadBalance(load, m0, p, m1, st2);
      } else {
        hide Allocated;
        AllocationTakes(m0.State(), PageCount(h.memSize));
      }
  }
}
