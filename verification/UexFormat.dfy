/** The UEX program format: a 24-byte header followed by the program, as the packer writes it
    and as the loader reads it. */
module UexFormat {
  import opened Words
  import opened Disk
  import opened ImageBuilder
  import opened MemoryMap

  const UEX_MAGIC: uint32 := 0x31555845
  const HEADER_SIZE: nat := 24
  const FIRST_CHUNK: nat := SECTOR - HEADER_SIZE

  datatype Header = Header(magic: uint32, entry: uint32, loadAddr: uint32, fileSize: uint32, memSize: uint32,
                           flags: uint32)

  /** The header at the front of a sector. */
  function HeaderOf(s: seq<byte>): Header
    requires |s| >= HEADER_SIZE
  {
    Header(U32(s, 0), U32(s, 4), U32(s, 8), U32(s, 12), U32(s, 16), U32(s, 20))
  }

  /** The program's size rounded up to whole pages. */
  function MemSize(n: nat): (m: nat)
    ensures m % PAGE_SIZE == 0 && n <= m < n + PAGE_SIZE
  {
    (n + PAGE_SIZE - 1) / PAGE_SIZE * PAGE_SIZE
  }

  function HeaderBytes(h: Header): (r: seq<byte>)
    ensures |r| == HEADER_SIZE
  {
    Le(h.magic) + Le(h.entry) + Le(h.loadAddr) + Le(h.fileSize) + Le(h.memSize) + Le(h.flags)
  }

  /** The sizes in the header fit in 32 bits. */
  predicate PackableProgram(program: seq<byte>) {
    MemSize(|program|) < WORD_LIMIT
  }

  function PackedHeader(program: seq<byte>, loadAddr: uint32): Header
    requires PackableProgram(program)
  {
    Header(UEX_MAGIC, loadAddr, loadAddr, |program|, MemSize(|program|), 0)
  }

  /** pack_uex: header, then the program. */
  function Packed(program: seq<byte>, loadAddr: uint32): (r: seq<byte>)
    requires PackableProgram(program)
    ensures |r| == HEADER_SIZE + |program|
  {
    HeaderBytes(PackedHeader(program, loadAddr)) + program
  }

  lemma HeaderWords(h: Header)
    ensures var b := HeaderBytes(h);
            && b[0..4] == Le(h.magic) && b[4..8] == Le(h.entry) && b[8..12] == Le(h.loadAddr)
            && b[12..16] == Le(h.fileSize) && b[16..20] == Le(h.memSize) && b[20..24] == Le(h.flags)
  {
  }

  /** A packed header is read back from any buffer it is at the front of. */
  lemma HeaderReadsBack(h: Header, s: seq<byte>)
    requires |s| >= HEADER_SIZE && s[..HEADER_SIZE] == HeaderBytes(h)
    ensures HeaderOf(s) == h
  {
    HeaderWords(h);
    SliceOfSlice(s, 0, 24, 0, 4, 0, 4);
    SliceOfSlice(s, 0, 24, 4, 8, 4, 8);
    SliceOfSlice(s, 0, 24, 8, 12, 8, 12);
    SliceOfSlice(s, 0, 24, 12, 16, 12, 16);
    SliceOfSlice(s, 0, 24, 16, 20, 16, 20);
    SliceOfSlice(s, 0, 24, 20, 24, 20, 24);
    assert s[0..24] == s[..24];
    LeReadsBack(h.magic, s, 0);
    LeReadsBack(h.entry, s, 4);
    LeReadsBack(h.loadAddr, s, 8);
    LeReadsBack(h.fileSize, s, 12);
    LeReadsBack(h.memSize, s, 16);
    LeReadsBack(h.flags, s, 20);
  }

  /** Program bytes that come out of the first sector. */
  function FirstChunk(fileSize: nat): (n: nat) {
    if fileSize < FIRST_CHUNK then fileSize else FIRST_CHUNK
  }

  /** Sectors after the first one, in the 32-bit arithmetic of the loader. */
  function TailSectors(fileSize: uint32): nat {
    if fileSize <= FIRST_CHUNK then 0 else (fileSize - FIRST_CHUNK + 511) % WORD_LIMIT / SECTOR
  }

  /** The sector count that reaches the drive. */
  function TailCount(fileSize: uint32): (n: nat)
    ensures n < 256
  {
    TailSectors(fileSize) % 256
  }

  /** Bytes the loader copies, whole sectors included. */
  function BodyBytes(fileSize: uint32): nat {
    FirstChunk(fileSize) + SECTOR * TailCount(fileSize)
  }

  /** How far past the load address a load writes. */
  function Reach(h: Header): nat {
    if h.memSize > h.fileSize && h.memSize > BodyBytes(h.fileSize) then h.memSize else BodyBytes(h.fileSize)
  }

  /** The loader reads exactly the sectors of the packed file. */
  lemma ReadsOwnExtent(program: seq<byte>)
    requires PackableProgram(program)
    ensures 1 + TailSectors(|program|) == SectorsNeeded(HEADER_SIZE + |program|)
  {
    var n := |program|;
    if n > FIRST_CHUNK {
      OneMoreSector(n - FIRST_CHUNK + 511);
    } else {
      assert SectorsNeeded(HEADER_SIZE + n) == 1;
    }
  }

  lemma OneMoreSector(x: nat)
    ensures (x + SECTOR) / SECTOR == x / SECTOR + 1
  {
  }

  /** A load stays within the pages it asked for exactly when the size of the program leaves
      room for the header in its last page, or so much is to be read that the 8-bit count cuts it
      short; otherwise it runs over by at most 488 bytes. */
  lemma LoadStaysInside(program: seq<byte>, loadAddr: uint32)
    requires PackableProgram(program)
    ensures var h := PackedHeader(program, loadAddr);
            && (Reach(h) <= h.memSize <==>
                  |program| == 0 || 1 <= |program| % PAGE_SIZE <= PAGE_SIZE - HEADER_SIZE ||
                  TailSectors(|program|) > 255)
            && Reach(h) <= h.memSize + FIRST_CHUNK
  {
    hide TailSectors, BodyBytes, MemSize;
    LastPage(|program|);
    BodyAgainstPages(|program|);
  }

  lemma BodyAgainstPages(n: uint32)
    requires MemSize(n) < WORD_LIMIT
    ensures BodyBytes(n) <= MemSize(n) <==>
            n == 0 || n <= MemSize(n) - HEADER_SIZE || TailSectors(n) > 255
    ensures BodyBytes(n) <= MemSize(n) + FIRST_CHUNK
  {
    if n > FIRST_CHUNK {
      hide TailSectors, MemSize;
      LastPage(n);
      TailBound(n, TailSectors(n));
      TailAgainstPages(n, TailSectors(n), MemSize(n) / PAGE_SIZE);
      if TailSectors(n) > 255 {
        CutShort(n);
      }
    }
  }

  lemma LastPage(n: nat)
    ensures MemSize(n) == MemSize(n) / PAGE_SIZE * PAGE_SIZE
    ensures n <= MemSize(n) - HEADER_SIZE <==> 1 <= n % PAGE_SIZE <= PAGE_SIZE - HEADER_SIZE
  {
    var m, r := n / PAGE_SIZE, n % PAGE_SIZE;
    assert n == PAGE_SIZE * m + r;
    assert MemSize(n) == PAGE_SIZE * (if r == 0 then m else m + 1);
  }

  lemma TailBound(n: uint32, t: nat)
    requires FIRST_CHUNK < n && n + 511 < WORD_LIMIT && t == TailSectors(n)
    ensures SECTOR * (t - 1) < n - FIRST_CHUNK <= SECTOR * t
  {
  }

  lemma CutShort(n: uint32)
    requires FIRST_CHUNK < n && n + 511 < WORD_LIMIT && TailSectors(n) > 255
    ensures BodyBytes(n) <= n
  {
  }

  lemma TailAgainstPages(n: nat, t: nat, q: nat)
    requires SECTOR * (t - 1) < n - FIRST_CHUNK <= SECTOR * t
    ensures FIRST_CHUNK + SECTOR * t <= PAGE_SIZE * q <==> n <= PAGE_SIZE * q - HEADER_SIZE
    ensures n <= PAGE_SIZE * q ==> FIRST_CHUNK + SECTOR * t <= PAGE_SIZE * q + FIRST_CHUNK
  {
  }

  /** The bytes of a packed file: the magic, the load address twice, the size, the memory, no
      flags, and the program. */
  lemma PackedBytes(program: seq<byte>, loadAddr: uint32)
    requires PackableProgram(program)
    ensures var b := Packed(program, loadAddr);
            && b[0..4] == Le(UEX_MAGIC) && b[4..8] == Le(loadAddr) && b[8..12] == Le(loadAddr)
            && b[12..16] == Le(|program|) && b[16..20] == Le(MemSize(|program|)) && b[20..24] == Le(0)
            && b[24..] == program
  {
    hide Le, MemSize;
    HeaderWords(PackedHeader(program, loadAddr));
    var h := HeaderBytes(PackedHeader(program, loadAddr));
    HeaderOfPacked(h, program, 0, 4);
    HeaderOfPacked(h, program, 4, 8);
    HeaderOfPacked(h, program, 8, 12);
    HeaderOfPacked(h, program, 12, 16);
    HeaderOfPacked(h, program, 16, 20);
    HeaderOfPacked(h, program, 20, 24);
  }

  lemma HeaderOfPacked(h: seq<byte>, program: seq<byte>, i: nat, j: nat)
    requires i <= j <= |h|
    ensures (h + program)[i..j] == h[i..j]
  {
  }
}
