/** From the packer to memory: what the loader makes of a packed program on a KFS volume. */
module UexCorrect {
  import opened Options
  import opened Words
  import opened Disk
  import opened KfsLayout
  import opened Kfs
  import opened Bitmap
  import opened MemoryMap
  import opened PageAllocator
  import opened AllocatorRuns
  import opened UexFormat
  import opened Uex

  /** The packed program is file i of the volume, and all its sectors exist. */
  ghost predicate OnVolume(image: seq<byte>, sb: seq<byte>, i: nat, program: seq<byte>, loadAddr: uint32)
    requires |sb| == SECTOR && i < KFS_MAX_FILES
  {
    var (lba, size) := (StartLba(sb, i), HEADER_SIZE + |program|);
    && PackableProgram(program) && Size(sb, i) == size
    && lba + SectorsFor(Size(sb, i)) <= LBA_LIMIT && SECTOR * (lba + SectorsFor(Size(sb, i))) <= |image|
    && SECTOR * lba + size <= |image|
    && image[SECTOR * lba..SECTOR * lba + size] == Packed(program, loadAddr)
  }

  lemma PackedPlaces(image: seq<byte>, lba: nat, program: seq<byte>, loadAddr: uint32)
    requires PackableProgram(program)
    requires SECTOR * lba + HEADER_SIZE + |program| <= |image|
    requires image[SECTOR * lba..SECTOR * lba + HEADER_SIZE + |program|] == Packed(program, loadAddr)
    ensures var a := SECTOR * lba;
            && image[a..a + HEADER_SIZE] == HeaderBytes(PackedHeader(program, loadAddr))
            && image[a + HEADER_SIZE..a + HEADER_SIZE + |program|] == program
  {
    var a, n := SECTOR * lba, HEADER_SIZE + |program|;
    SliceOfSlice(image, a, a + n, 0, HEADER_SIZE, a, a + HEADER_SIZE);
    SliceOfSlice(image, a, a + n, HEADER_SIZE, n, a + HEADER_SIZE, a + n);
    var packed, h := Packed(program, loadAddr), HeaderBytes(PackedHeader(program, loadAddr));
    SliceOfPrefix(packed, h, program, 0, HEADER_SIZE);
    SliceOfSuffix(packed, h, program, HEADER_SIZE, n);
    assert h[0..HEADER_SIZE] == h;
  }

  /** The sectors a load reads lie in the file's extent: the first can be read, and the others
      in one transfer unless the 8-bit count of them is 0. */
  lemma TransfersHappen(image: seq<byte>, lba: uint32, n: uint32)
    requires HEADER_SIZE + n + 511 < WORD_LIMIT && lba + SectorsFor(HEADER_SIZE + n) <= LBA_LIMIT
    requires SECTOR * (lba + SectorsFor(HEADER_SIZE + n)) <= |image|
    ensures lba < LBA_LIMIT && Transfers(image, lba, 1)
    ensures TailReadable(image, lba, n) <==> TailSectors(n) == 0 || TailSectors(n) % 256 != 0
    ensures n > FIRST_CHUNK ==> lba + 1 < LBA_LIMIT
  {
    hide Transfers, TailSectors, SectorsFor;
    TailFits(n, lba, |image|);
    FirstTransfers(image, lba);
    if n > FIRST_CHUNK {
      TailTransfers(image, lba, TailSectors(n));
    }
  }

  lemma FirstTransfers(image: seq<byte>, lba: nat)
    requires lba < LBA_LIMIT && SECTOR * (lba + 1) <= |image|
    ensures Transfers(image, lba, 1)
  {
  }

  lemma TailTransfers(image: seq<byte>, lba: nat, t: nat)
    requires lba + 1 < LBA_LIMIT && SECTOR * (lba + 1 + t) <= |image|
    ensures Transfers(image, (lba + 1) % WORD_LIMIT, t % 256) <==> t % 256 != 0
  {
    assert (lba + 1) % WORD_LIMIT % LBA_LIMIT == lba + 1;
  }

  lemma TailFits(n: uint32, lba: nat, size: nat)
    requires HEADER_SIZE + n + 511 < WORD_LIMIT && lba + SectorsFor(HEADER_SIZE + n) <= LBA_LIMIT
    requires SECTOR * (lba + SectorsFor(HEADER_SIZE + n)) <= size
    ensures lba < LBA_LIMIT && SECTOR * (lba + 1) <= size
    ensures n > FIRST_CHUNK <==> TailSectors(n) != 0
    ensures n > FIRST_CHUNK ==> lba + 1 < LBA_LIMIT && SECTOR * (lba + 1 + TailSectors(n)) <= size
  {
    assert 1 + TailSectors(n) == SectorsFor(HEADER_SIZE + n);
  }

  lemma HeaderInSector(image: seq<byte>, lba: nat, h: Header)
    requires SECTOR * (lba + 1) <= |image| && image[SECTOR * lba..SECTOR * lba + HEADER_SIZE] == HeaderBytes(h)
    ensures HeaderOf(Extent(image, lba, 1)) == h
  {
    var sector := Extent(image, lba, 1);
    SliceOfSlice(image, SECTOR * lba, SECTOR * (lba + 1), 0, HEADER_SIZE, SECTOR * lba, SECTOR * lba + HEADER_SIZE);
    assert sector[..HEADER_SIZE] == sector[0..HEADER_SIZE];
    HeaderReadsBack(h, sector);
  }

  lemma InspectAccepts(image: seq<byte>, sb: seq<byte>, i: nat, h: Header)
    requires |sb| == SECTOR && i < KFS_MAX_FILES && Size(sb, i) >= HEADER_SIZE
    requires StartLba(sb, i) < LBA_LIMIT && Transfers(image, StartLba(sb, i), 1)
    requires HeaderOf(Extent(image, StartLba(sb, i), 1)) == h && h.magic == UEX_MAGIC
    ensures Inspect(image, sb, i) == Accepted(h)
  {
    assert StartLba(sb, i) % LBA_LIMIT == StartLba(sb, i);
  }

  /** The loader accepts the header it finds. */
  lemma PackedIsAccepted(image: seq<byte>, sb: seq<byte>, i: nat, program: seq<byte>, loadAddr: uint32)
    requires |sb| == SECTOR && i < KFS_MAX_FILES && OnVolume(image, sb, i, program, loadAddr)
    ensures PackableProgram(program) && Inspect(image, sb, i) == Accepted(PackedHeader(program, loadAddr))
  {
    hide Packed, HeaderBytes, HeaderOf, Extent, Inspect, SectorsFor, Transfers;
    TransfersHappen(image, StartLba(sb, i), |program|);
    PackedPlaces(image, StartLba(sb, i), program, loadAddr);
    HeaderInSector(image, StartLba(sb, i), PackedHeader(program, loadAddr));
    InspectAccepts(image, sb, i, PackedHeader(program, loadAddr));
  }

  /** The two pieces that are copied are one stretch of the disk. */
  lemma BodyIsContiguous(image: seq<byte>, lba: uint32, n: uint32)
    requires lba < LBA_LIMIT && Transfers(image, lba, 1) && TailReadable(image, lba, n)
    requires n > FIRST_CHUNK ==> lba + 1 < LBA_LIMIT
    ensures var a := SECTOR * lba + HEADER_SIZE;
            a + BodyBytes(n) <= |image| && Body(image, lba, n) == image[a..a + BodyBytes(n)]
  {
    hide Delivered, Transfers, TailReadable, Tail;
    FirstIsThere(image, lba);
    FirstPiece(image, lba, FirstChunk(n));
    if n > FIRST_CHUNK {
      TailIsNext(image, lba, n);
      TwoPieces(image, lba, TailCount(n));
    }
  }

  lemma FirstIsThere(image: seq<byte>, lba: uint32)
    requires lba < LBA_LIMIT && Transfers(image, lba, 1)
    ensures lba % LBA_LIMIT == lba && SECTOR * (lba + 1) <= |image|
  {
  }

  lemma TailIsNext(image: seq<byte>, lba: uint32, n: uint32)
    requires lba + 1 < LBA_LIMIT && n > FIRST_CHUNK && TailReadable(image, lba, n)
    ensures SECTOR * (lba + 1 + TailCount(n)) <= |image| && Tail(image, lba, n) == Extent(image, lba + 1, TailCount(n))
  {
    assert (lba + 1) % WORD_LIMIT % LBA_LIMIT == lba + 1;
  }

  lemma FirstPiece(image: seq<byte>, lba: nat, k: nat)
    requires SECTOR * (lba + 1) <= |image| && k <= FIRST_CHUNK
    ensures var a := SECTOR * lba + HEADER_SIZE;
            Extent(image, lba, 1)[HEADER_SIZE..HEADER_SIZE + k] == image[a..a + k]
  {
    var a := SECTOR * lba + HEADER_SIZE;
    SliceOfSlice(image, SECTOR * lba, SECTOR * (lba + 1), HEADER_SIZE, HEADER_SIZE + k, a, a + k);
  }

  lemma TwoPieces(image: seq<byte>, lba: nat, t: nat)
    requires SECTOR * (lba + 1 + t) <= |image|
    ensures var a := SECTOR * lba + HEADER_SIZE;
            Extent(image, lba, 1)[HEADER_SIZE..HEADER_SIZE + FIRST_CHUNK] + Extent(image, lba + 1, t)
            == image[a..a + (FIRST_CHUNK + SECTOR * t)]
  {
    var a := SECTOR * lba + HEADER_SIZE;
    FirstPiece(image, lba, FIRST_CHUNK);
    Adjacent(image, a, SECTOR * (lba + 1), SECTOR * (lba + 1 + t));
  }

  lemma Adjacent(s: seq<byte>, a: nat, b: nat, c: nat)
    requires a <= b <= c <= |s|
    ensures s[a..b] + s[b..c] == s[a..c]
  {
  }

  /** As far as it goes, the body is the program; it goes to its end exactly when the sectors
      after the first are at most 255. */
  lemma BodyIsProgram(image: seq<byte>, lba: uint32, program: seq<byte>)
    requires HEADER_SIZE + |program| + 511 < WORD_LIMIT && lba + SectorsFor(HEADER_SIZE + |program|) <= LBA_LIMIT
    requires SECTOR * (lba + SectorsFor(HEADER_SIZE + |program|)) <= |image|
    requires SECTOR * lba + HEADER_SIZE + |program| <= |image|
    requires image[SECTOR * lba + HEADER_SIZE..SECTOR * lba + HEADER_SIZE + |program|] == program
    requires Transfers(image, lba, 1) && TailReadable(image, lba, |program|)
    ensures var (n, body) := (|program|, Body(image, lba, |program|));
            && |body| == BodyBytes(n) && (n <= |body| <==> TailSectors(n) <= 255)
            && (if n <= |body| then body[..n] == program else body == program[..|body|])
  {
    var a, n: uint32 := SECTOR * lba + HEADER_SIZE, |program|;
    TransfersHappen(image, lba, n);
    BodyIsContiguous(image, lba, n);
    EnoughSectors(n);
    var k := if n <= BodyBytes(n) then n else BodyBytes(n);
    SliceOfSlice(image, a, a + BodyBytes(n), 0, k, a, a + k);
    SliceOfSlice(image, a, a + n, 0, k, a, a + k);
    assert Body(image, lba, n)[..k] == Body(image, lba, n)[0..k] && program[..k] == program[0..k];
    assert Body(image, lba, n)[..|Body(image, lba, n)|] == Body(image, lba, n) && program[..n] == program;
  }

  lemma EnoughSectors(fileSize: uint32)
    requires fileSize + 511 < WORD_LIMIT
    ensures fileSize <= BodyBytes(fileSize) <==> TailSectors(fileSize) <= 255
  {
  }

  /** The program sits at `dest`, followed by zeros to the end of its memory, and nothing else
      has changed but what the last sector runs over. */
  ghost predicate InMemory(mem0: seq<byte>, mem1: seq<byte>, dest: nat, h: Header, program: seq<byte>) {
    && |program| <= h.memSize && dest + h.memSize <= |mem0|
    && SameOutside(mem0, mem1, dest, Reach(h))
    && mem1[dest..dest + h.memSize] == program + Zeros(h.memSize - |program|)
  }

  /** Memory after a load, in the part the program asked for and outside what is written. */
  lemma LoadedMeans(before: seq<byte>, after: seq<byte>, dest: nat, body: seq<byte>, h: Header, program: seq<byte>)
    requires Loaded(before, after, dest, body, h) && |body| == BodyBytes(h.fileSize)
    requires h.fileSize == |program| <= |body| && body[..|program|] == program && |program| <= h.memSize
    ensures InMemory(before, after, dest, h, program)
  {
    var n := |program|;
    forall k | dest <= k < dest + h.memSize
      ensures after[k] == (program + Zeros(h.memSize - n))[k - dest]
    {
      if k < dest + n {
        assert after[k] == body[k - dest] == body[..n][k - dest];
      }
    }
  }

  /** The program is cut off: what follows the sectors that were read, up to the program's end,
      is what was in memory before. */
  ghost predicate CutOff(mem0: seq<byte>, mem1: seq<byte>, dest: nat, program: seq<byte>, arrived: nat) {
    && |mem1| == |mem0| && arrived < |program| && dest + |program| <= |mem0|
    && mem1[dest..dest + arrived] == program[..arrived]
    && mem1[dest + arrived..dest + |program|] == mem0[dest + arrived..dest + |program|]
  }

  lemma ShortLoadMeans(before: seq<byte>, after: seq<byte>, dest: nat, body: seq<byte>, h: Header, program: seq<byte>)
    requires Loaded(before, after, dest, body, h)
    requires h.fileSize == |program| > |body| && body == program[..|body|] && |program| <= h.memSize
    requires dest + |program| <= |before|
    ensures CutOff(before, after, dest, program, |body|)
  {
    var n, k := |program|, |body|;
    assert after[dest..dest + k] == body;
    assert after[dest + k..dest + n] == before[dest + k..dest + n];
  }

  lemma PackableFits(program: seq<byte>)
    requires PackableProgram(program)
    ensures HEADER_SIZE + |program| + 511 < WORD_LIMIT && |program| <= MemSize(|program|)
  {
  }

  lemma LoadIsCorrect(image: seq<byte>, sb: seq<byte>, i: nat, program: seq<byte>, loadAddr: uint32,
                      dest: nat, mem0: seq<byte>, mem1: seq<byte>, status: int, entry: nat)
    requires |sb| == SECTOR && i < KFS_MAX_FILES && OnVolume(image, sb, i, program, loadAddr)
    requires Transfers(image, StartLba(sb, i), 1) && dest + |program| <= |mem0|
    requires LoadedOrNot(image, StartLba(sb, i), PackedHeader(program, loadAddr), dest, mem0, mem1, status, entry)
    ensures LoadOutcome(program, loadAddr, dest, mem0, mem1, status, entry)
  {
    hide Loaded, InMemory, CutOff, Body, BrokenOff, TailReadable, Transfers, SectorsFor, BodyBytes, Packed;
    hide HeaderBytes, TailSectors, MemSize, StartLba, Size, Extent;
    PackableFits(program);
    var lba, h := StartLba(sb, i), PackedHeader(program, loadAddr);
    PackedPlaces(image, lba, program, loadAddr);
    TransfersHappen(image, lba, |program|);
    if status == ERR_SUCCESS {
      BodyIsProgram(image, lba, program);
      var body := Body(image, lba, |program|);
      if |program| <= |body| {
        LoadedMeans(mem0, mem1, dest, body, h, program);
      } else {
        ShortLoadMeans(mem0, mem1, dest, body, h, program);
      }
    }
  }

  /** What comes of loading a packed program at `dest`: it succeeds unless the number of its
      sectors after the first is a positive multiple of 256, and the whole program is then in
      memory exactly when that number is at most 255. */
  ghost predicate LoadOutcome(program: seq<byte>, loadAddr: uint32, dest: nat, mem0: seq<byte>, mem1: seq<byte>,
                              status: int, entry: nat)
    requires PackableProgram(program)
  {
    var tail := TailSectors(|program|);
    && (status == ERR_SUCCESS <==> tail == 0 || tail % 256 != 0)
    && (status == ERR_SUCCESS ==>
          && entry == (if loadAddr == 0 then dest % WORD_LIMIT else loadAddr)
          && if tail <= 255 then InMemory(mem0, mem1, dest, PackedHeader(program, loadAddr), program)
             else CutOff(mem0, mem1, dest, program, BodyBytes(|program|)))
  }

  /** Loader correctness: a packed program on the volume is accepted; if it finds a place it is
      loaded there and entered at its first byte, and otherwise nothing happens. */
  lemma LoaderIsCorrect(image: seq<byte>, sb: seq<byte>, i: nat, program: seq<byte>, loadAddr: uint32,
                        m0: Machine, p: Machine, m1: Machine, status: int, entry: nat, base: nat, n: nat)
    requires |sb| == SECTOR && i < KFS_MAX_FILES && OnVolume(image, sb, i, program, loadAddr) && m0.Valid()
    requires Executed(image, sb, i, m0, p, m1, status, entry, base, n)
    requires Destination(PackedHeader(program, loadAddr), m0.State()) + |program| <= |m0.mem|
    ensures var dest := Destination(PackedHeader(program, loadAddr), m0.State());
            && (dest == 0 ==> status == ERR_OOM && m1 == p)
            && (dest != 0 ==> LoadOutcome(program, loadAddr, dest, p.mem, m1.mem, status, entry))
            && Placed(m0, p, PackedHeader(program, loadAddr))
  {
    hide LoadOutcome, OnVolume;
    var h := PackedHeader(program, loadAddr);
    PackedIsAccepted(image, sb, i, program, loadAddr);
    var dest := Destination(h, m0.State());
    if dest != 0 {
      LoadIsCorrect(image, sb, i, program, loadAddr, dest, p.mem, m1.mem, status, entry);
    }
  }

  /** A program loaded into freshly allocated pages is written within them exactly when its
      size leaves room for the 24 header bytes in its last page, or is too much for one transfer. */
  lemma WritesStayInBlock(program: seq<byte>, st: AllocState)
    requires PackableProgram(program) && st.Valid()
    requires Destination(PackedHeader(program, 0), st) != 0
    ensures var h := PackedHeader(program, 0);
            var (s, n, dest) := (Destination(h, st) / PAGE_SIZE, PageCount(h.memSize), Destination(h, st));
            && Allocated(st, n).1 == Some(s) && dest == s * PAGE_SIZE && n * PAGE_SIZE == h.memSize
            && ((forall a :: dest <= a < dest + Reach(h) ==> InPages(s, n, a)) <==>
                  1 <= |program| % PAGE_SIZE <= PAGE_SIZE - HEADER_SIZE || TailSectors(|program|) > 255)
  {
    var h := PackedHeader(program, 0);
    var dest, n := Destination(h, st), PageCount(h.memSize);
    var s := dest / PAGE_SIZE;
    LoadStaysInside(program, 0);
    WholePages(h.memSize);
    assert Allocated(st, n).1 == Some(s) && n > 0;
    if Reach(h) > h.memSize {
      assert !InPages(s, n, dest + h.memSize);
    }
  }

  lemma WholePages(m: uint32)
    requires m % PAGE_SIZE == 0
    ensures PageCount(m) * PAGE_SIZE == m
  {
  }

  // ----- programs and the page map

  /** A load of the program stays within the memory it asks for. */
  predicate StaysInside(program: seq<byte>)
    requires PackableProgram(program)
  {
    program == [] || 1 <= |program| % PAGE_SIZE <= PAGE_SIZE - HEADER_SIZE || TailSectors(|program|) > 255
  }

  /** A packed program for allocated pages that stays within them leaves the page map as it is
      exactly unless the number of its sectors after the first is a positive multiple of 256: its
      block is clear of the bitmap, but a count of 0 fails and the block is then never released. */
  lemma AllocatedProgramKeepsMap(image: seq<byte>, sb: seq<byte>, i: nat, program: seq<byte>, m: Machine)
    requires |sb| == SECTOR && i < KFS_MAX_FILES && OnVolume(image, sb, i, program, 0)
    requires m.Valid() && HomeReserved(m.State(), m.home) && StaysInside(program)
    ensures var (dest, tail) := (Destination(PackedHeader(program, 0), m.State()), TailSectors(|program|));
            KeepsMap(image, sb, i, m) <==> dest == 0 || tail == 0 || tail % 256 != 0
  {
    hide OnVolume, HomeReserved, Allocated, Reach, PagesIn, Inspect, Body, Load.SparesBitmap, Load.LosesPage;
    hide PackedHeader, TailReadable, BitmapSize, PageCount, TailSectors;
    PackedIsAccepted(image, sb, i, program, 0);
    var st, h := m.State(), PackedHeader(program, 0);
    PackedFields(program, 0);
    var load := LoadOf(image, sb, i, h, st);
    if load.dest != 0 {
      BlockMissesBitmap(st, m.home, PageCount(h.memSize));
      WritesStayInBlock(program, st);
      LoadStaysInside(program, 0);
      ProgramArrives(image, sb, i, program, 0);
      ClearOfBitmap(load, m.home, st.used);
    }
  }

  lemma PackedFields(program: seq<byte>, loadAddr: uint32)
    requires PackableProgram(program)
    ensures var h := PackedHeader(program, loadAddr);
            h.loadAddr == loadAddr && h.fileSize == |program| && h.memSize == MemSize(|program|)
  {
  }

  lemma ProgramArrives(image: seq<byte>, sb: seq<byte>, i: nat, program: seq<byte>, loadAddr: uint32)
    requires |sb| == SECTOR && i < KFS_MAX_FILES && OnVolume(image, sb, i, program, loadAddr)
    ensures Transfers(image, StartLba(sb, i), 1)
    ensures TailReadable(image, StartLba(sb, i), |program|) <==>
            TailSectors(|program|) == 0 || TailSectors(|program|) % 256 != 0
  {
    hide TailReadable, TailSectors, Transfers, SectorsFor;
    TransfersHappen(image, StartLba(sb, i), |program|);
  }

  /** So it is after start-up and any run of allocations and releases, wherever the bitmap is in a
      safe place. */
  lemma ProgramsKeepMapOverRuns(mmap: seq<Entry>, initial: seq<bool>, qs: seq<Request>,
                                image: seq<byte>, sb: seq<byte>, i: nat, program: seq<byte>, m: Machine)
    requires m.Valid() && IsStart(mmap, m.home, initial) && SafeHome(mmap, m.home, |initial|)
    requires Legal(StartWorld(initial), qs) && m.State() == Final(StartWorld(initial), qs).alloc
    requires |sb| == SECTOR && i < KFS_MAX_FILES && OnVolume(image, sb, i, program, 0) && StaysInside(program)
    ensures var (dest, tail) := (Destination(PackedHeader(program, 0), m.State()), TailSectors(|program|));
            KeepsMap(image, sb, i, m) <==> dest == 0 || tail == 0 || tail % 256 != 0
  {
    hide KeepsMap, OnVolume, PagesIn, Allocated;
    RunsKeepHome(mmap, m.home, initial, qs);
    AllocatedProgramKeepsMap(image, sb, i, program, m);
  }

  /** A program for which the map is not kept: 131073 bytes, with 256 sectors after the first. If
      there is room for it, its 33 pages are lost. */
  lemma PagesAreLost(image: seq<byte>, sb: seq<byte>, i: nat, program: seq<byte>, m: Machine)
    requires |program| == 131073 && |sb| == SECTOR && i < KFS_MAX_FILES && OnVolume(image, sb, i, program, 0)
    requires m.Valid() && HomeReserved(m.State(), m.home) && Destination(PackedHeader(program, 0), m.State()) != 0
    ensures TailSectors(|program|) == 256 && PageCount(PackedHeader(program, 0).memSize) == 33
    ensures !KeepsMap(image, sb, i, m) && !Runs(image, sb, i, m)
  {
    hide KeepsMap, OnVolume, PagesIn, Allocated, HomeReserved, Destination, TailReadable, Transfers;
    AllocatedProgramKeepsMap(image, sb, i, program, m);
    PackedIsAccepted(image, sb, i, program, 0);
    ProgramArrives(image, sb, i, program, 0);
  }

  lemma FirstByteOfBody(image: seq<byte>, lba: uint32, program: seq<byte>, loadAddr: uint32)
    requires PackableProgram(program) && program != [] && lba < LBA_LIMIT && Transfers(image, lba, 1)
    requires SECTOR * lba + HEADER_SIZE + |program| <= |image|
    requires image[SECTOR * lba..SECTOR * lba + HEADER_SIZE + |program|] == Packed(program, loadAddr)
    ensures Body(image, lba, |program|) != [] && Body(image, lba, |program|)[0] == program[0]
  {
    hide Tail, HeaderBytes, PackedHeader, Packed;
    var a := SECTOR * lba + HEADER_SIZE;
    PackedPlaces(image, lba, program, loadAddr);
    FirstPiece(image, lba, FirstChunk(|program|));
    assert lba % LBA_LIMIT == lba;
    assert image[a..a + FirstChunk(|program|)][0] == image[a] == image[a..a + |program|][0];
  }

  /** A program whose load address is that of the bitmap is loaded over it without complaint: with
      bit 0 of its first byte clear, page 0 then counts as free, and NULL can be handed out. */
  lemma LoadOverBitmap(image: seq<byte>, sb: seq<byte>, i: nat, program: seq<byte>, m0: Machine, p: Machine,
                       m1: Machine, status: int, entry: nat, base: nat, n: nat)
    requires m0.Valid() && m0.maxPages > 0 && m0.State().used[0] && 0 < m0.home < WORD_LIMIT
    requires |sb| == SECTOR && i < KFS_MAX_FILES && OnVolume(image, sb, i, program, m0.home)
    requires program != [] && !TestBit(program[0], 0)
    requires Executed(image, sb, i, m0, p, m1, status, entry, base, n)
    ensures status == ERR_SUCCESS <==> TailSectors(|program|) == 0 || TailSectors(|program|) % 256 != 0
    ensures m1.Valid() && !m1.State().used[0] && !KeepsMap(image, sb, i, m0)
  {
    hide KeepsMap, Runs, PagesIn, Allocated, Body, TailReadable, Inspect, Reach, Freed, HeaderBytes, Packed;
    hide Loaded, BrokenOff, TailSectors, Load.BitFor, Extent;
    PackedIsAccepted(image, sb, i, program, m0.home);
    ProgramArrives(image, sb, i, program, m0.home);
    FirstByteOfBody(image, StartLba(sb, i), program, m0.home);
    var load := LoadOf(image, sb, i, PackedHeader(program, m0.home), m0.State());
    FirstBit(load, program);
    LoadedBit(load, p.mem, m1.mem, m0.home, m0.maxPages, 0);
    ExecBalance(image, sb, i, m0, p, m1, status, entry, base, n, m1.State());
  }

  lemma FirstBit(load: Load, program: seq<byte>)
    requires load.h.fileSize == |program| > 0 && load.body != [] && load.body[0] == program[0]
    ensures load.BitFor(load.dest, 0) == Some(TestBit(program[0], 0))
  {
  }

  /** The smallest such program: one zero byte, which is loaded with success. */
  lemma ZeroByteOverBitmap(image: seq<byte>, sb: seq<byte>, i: nat, m0: Machine, p: Machine, m1: Machine,
                           status: int, entry: nat, base: nat, n: nat)
    requires m0.Valid() && m0.maxPages > 0 && m0.State().used[0] && 0 < m0.home < WORD_LIMIT
    requires |sb| == SECTOR && i < KFS_MAX_FILES && OnVolume(image, sb, i, [0], m0.home)
    requires Executed(image, sb, i, m0, p, m1, status, entry, base, n)
    ensures status == ERR_SUCCESS && m1.Valid() && !m1.State().used[0]
  {
    hide OnVolume, Executed, PagesIn, KeepsMap;
    LoadOverBitmap(image, sb, i, [0], m0, p, m1, status, entry, base, n);
  }

  // ----- any file that begins with the magic

  /** Byte k of the memory from `dest` on is zero between the end of the program and the end of its
      memory, and otherwise, as far as sectors are read, the byte of the drive k behind a. */
  ghost predicate ByteLoaded(
    mem: seq<byte>, dest: nat, image: seq<byte>, a: nat, fileSize: uint32, memSize: uint32, k: nat)
  {
    if fileSize <= k < memSize then dest + k < |mem| && mem[dest + k] == 0
    else k < BodyBytes(fileSize) ==> dest + k < |mem| && a + k < |image| && mem[dest + k] == image[a + k]
  }

  ghost predicate BytesLoaded(mem: seq<byte>, dest: nat, image: seq<byte>, a: nat, fileSize: uint32, memSize: uint32) {
    forall k: nat :: ByteLoaded(mem, dest, image, a, fileSize, memSize, k)
  }

  /** What a successful load is, for any header, in terms of the words and bytes on the drive: the
      entry point, the pages, and every byte. */
  lemma LoadMeans(image: seq<byte>, sb: seq<byte>, i: nat, m0: Machine, p: Machine, m1: Machine,
                  status: int, entry: nat, base: nat, n: nat)
    requires |sb| == SECTOR && i < KFS_MAX_FILES && m0.Valid() && StartLba(sb, i) + 1 < LBA_LIMIT
    requires Executed(image, sb, i, m0, p, m1, status, entry, base, n) && status == ERR_SUCCESS
    ensures SECTOR * (StartLba(sb, i) + 1) <= |image|
    ensures var a := SECTOR * StartLba(sb, i);
            var (loadAddr, fileSize, memSize) := (U32(image, a + 8), U32(image, a + 12), U32(image, a + 16));
            var dest := if loadAddr != 0 then loadAddr else base;
            && dest != 0 && image[a..a + 4] == [0x45, 0x58, 0x55, 0x31]
            && entry == (if loadAddr == 0 then (dest + U32(image, a + 4)) % WORD_LIMIT else U32(image, a + 4))
            && (loadAddr != 0 ==> base == 0 && n == 0) && (loadAddr == 0 ==> n == PageCount(memSize))
            && BytesLoaded(m1.mem, dest, image, a + HEADER_SIZE, fileSize, memSize)
  {
    hide U32, Placed, PagesIn, Allocated, Body, TailReadable, Extent, Present, Loaded, BrokenOff, BytesLoaded, Inspect;
    hide BodyBytes;
    InspectMeans(image, sb, i);
    var lba := StartLba(sb, i);
    assert lba % LBA_LIMIT == lba;
    var h := Inspect(image, sb, i).h;
    BodyIsContiguous(image, lba, h.fileSize);
    BytesAreLoaded(p.mem, m1.mem, Destination(h, m0.State()), Body(image, lba, h.fileSize), h, image,
                   SECTOR * lba + HEADER_SIZE);
  }

  /** When a file that begins with the magic is not loaded, for any header: it gets no pages, or one of
      the sectors that its size says follow the first does not exist, or none is asked for. */
  lemma FailureMeans(image: seq<byte>, sb: seq<byte>, i: nat, m0: Machine, p: Machine, m1: Machine,
                     status: int, entry: nat, base: nat, n: nat)
    requires |sb| == SECTOR && i < KFS_MAX_FILES && m0.Valid() && StartLba(sb, i) + 1 < LBA_LIMIT
    requires Executed(image, sb, i, m0, p, m1, status, entry, base, n) && Refused(image, sb, i) == None
    ensures var (lba, a) := (StartLba(sb, i), SECTOR * StartLba(sb, i));
            var (loadAddr, fileSize, memSize) := (U32(image, a + 8), U32(image, a + 12), U32(image, a + 16));
            var room := loadAddr != 0 || AddressOf(Allocated(m0.State(), PageCount(memSize)).1) != 0;
            var count := if fileSize <= 488 then 0 else (fileSize + 23) % WORD_LIMIT / SECTOR % 256;
            && (status == ERR_OOM <==> !room)
            && (status == ERR_IO <==> room && fileSize > 488 && (count == 0 || SECTOR * (lba + 1 + count) > |image|))
            && (status == ERR_SUCCESS || status == ERR_OOM || status == ERR_IO)
  {
    hide U32, Placed, PagesIn, Allocated, Body, Extent, Present, Loaded, BrokenOff, Inspect, BodyBytes, FirstChunk;
    InspectMeans(image, sb, i);
    var lba := StartLba(sb, i);
    assert lba % LBA_LIMIT == lba && (lba + 1) % WORD_LIMIT == lba + 1 && (lba + 1) % LBA_LIMIT == lba + 1;
  }

  lemma BytesAreLoaded(before: seq<byte>, after: seq<byte>, dest: nat, body: seq<byte>, h: Header, image: seq<byte>,
                       a: nat)
    requires Loaded(before, after, dest, body, h) && |body| == BodyBytes(h.fileSize)
    requires a + BodyBytes(h.fileSize) <= |image| && body == image[a..a + BodyBytes(h.fileSize)]
    ensures BytesLoaded(after, dest, image, a, h.fileSize, h.memSize)
  {
  }
}
