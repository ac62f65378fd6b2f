/** Reading an arbitrary byte range of a file, sector by sector (kfsExtension0). */
module ByteRange {
  import opened Words
  import opened Memory
  import opened Disk
  import opened KfsLayout
  import opened KfsContents
  import opened ImageBuilder

  /** How many bytes the code copies: the end of the range is computed in 32 bits. */
  function CopyLength(fileSize: uint32, offset: uint32, size: uint32): (n: uint32) {
    if offset >= fileSize then 0
    else if (offset + size) % WORD_LIMIT > fileSize then fileSize - offset
    else size
  }

  /** How many bytes of the range lie in the file. */
  function RangeLength(fileSize: nat, offset: nat, size: nat): nat {
    if offset >= fileSize then 0
    else if offset + size > fileSize then fileSize - offset
    else size
  }

  /** The code copies what the range holds unless the end of the range wraps round to a
      value inside the file. */
  lemma CopyLengthIsRight(fileSize: uint32, offset: uint32, size: uint32)
    ensures CopyLength(fileSize, offset, size) == RangeLength(fileSize, offset, size) <==>
              offset >= fileSize || offset + size < WORD_LIMIT || offset + size - WORD_LIMIT > fileSize
  {
  }

  /** Such a range: 500 bytes of the file are left, but the length is not cut. */
  lemma WrappingRange()
    ensures CopyLength(1000, 500, 0xFFFF_FF9C) == 0xFFFF_FF9C && RangeLength(1000, 500, 0xFFFF_FF9C) == 500
  {
  }

  /** The sectors of a file of `size` bytes at `lba` exist and can be addressed. */
  predicate OnDrive(image: seq<byte>, lba: nat, size: nat) {
    lba + SectorsNeeded(size) <= LBA_LIMIT && SECTOR * (lba + SectorsNeeded(size)) <= |image|
  }

  /** The sector exists and its address survives the cut to 28 bits. */
  predicate SectorExists(image: seq<byte>, sector: nat) {
    sector < LBA_LIMIT && SECTOR * (sector + 1) <= |image|
  }

  /** The bytes of `remaining` asked for that arrive, from byte `first` of a sector on, sector by
      sector until one is missing, and whether none is. */
  ghost function Gathered(image: seq<byte>, sector: uint32, first: nat, remaining: nat): (r: (seq<byte>, bool))
    requires first < SECTOR
    ensures |r.0| <= remaining && (r.1 ==> |r.0| == remaining)
    decreases remaining
  {
    if remaining == 0 then ([], true)
    else if !Transfers(image, sector, 1) then ([], false)
    else
      var n := if SECTOR - first > remaining then remaining else SECTOR - first;
      var (rest, ok) := Gathered(image, (sector + 1) % WORD_LIMIT, 0, remaining - n);
      (Extent(image, sector % LBA_LIMIT, 1)[first..first + n] + rest, ok)
  }

  /** The sectors that `remaining` bytes from byte `first` of a sector on lie in. */
  function SectorsTouched(first: nat, remaining: nat): nat {
    if remaining == 0 then 0 else (first + remaining - 1) / SECTOR + 1
  }

  /** The j-th sector from `sector` on, counted in 32 bits, can be read. */
  ghost predicate Arrives(image: seq<byte>, sector: uint32, j: nat) {
    Transfers(image, (sector + j) % WORD_LIMIT, 1)
  }

  /** Gathering succeeds exactly when each sector that holds a byte of the range can be read. */
  lemma {:induction false} GatheredIsAll(image: seq<byte>, sector: uint32, first: nat, remaining: nat)
    requires first < SECTOR
    ensures Gathered(image, sector, first, remaining).1 <==>
              forall j: nat :: j < SectorsTouched(first, remaining) ==> Arrives(image, sector, j)
    decreases remaining
  {
    hide Transfers, Extent;
    if remaining > 0 {
      var n, next := if SECTOR - first > remaining then remaining else SECTOR - first, (sector + 1) % WORD_LIMIT;
      OneSectorLess(first, remaining, n);
      assert Arrives(image, sector, 0) <==> Transfers(image, sector, 1);
      GatheredIsAll(image, next, 0, remaining - n);
      hide SectorsTouched;
      AllShifted(image, sector, next, SectorsTouched(0, remaining - n));
    }
  }

  lemma AllShifted(image: seq<byte>, sector: uint32, next: uint32, n: nat)
    requires next == (sector + 1) % WORD_LIMIT
    ensures (forall j: nat :: j < 1 + n ==> Arrives(image, sector, j)) <==>
            Arrives(image, sector, 0) && forall j: nat :: j < n ==> Arrives(image, next, j)
  {
    hide Arrives;
    forall j: nat | j < n ensures Arrives(image, next, j) == Arrives(image, sector, j + 1) {
      NextSector(image, sector, j + 1);
    }
    forall j: nat | 1 <= j < 1 + n ensures Arrives(image, sector, j) == Arrives(image, next, j - 1) {
      NextSector(image, sector, j);
    }
  }

  /** Otherwise it ends before any sector that cannot: nothing of it or of later ones arrives. */
  lemma {:induction false} GatheredStops(image: seq<byte>, sector: uint32, first: nat, remaining: nat, j: nat)
    requires first < SECTOR && j < SectorsTouched(first, remaining) && !Arrives(image, sector, j)
    ensures |Gathered(image, sector, first, remaining).0| <= (if j == 0 then 0 else SECTOR * j - first)
    decreases remaining
  {
    hide Transfers, Extent;
    if j > 0 {
      var n, next := if SECTOR - first > remaining then remaining else SECTOR - first, (sector + 1) % WORD_LIMIT;
      OneSectorLess(first, remaining, n);
      NextSector(image, sector, j);
      GatheredStops(image, next, 0, remaining - n, j - 1);
    }
  }

  lemma OneSectorLess(first: nat, remaining: nat, n: nat)
    requires first < SECTOR && remaining > 0 && n == if SECTOR - first > remaining then remaining else SECTOR - first
    ensures SectorsTouched(first, remaining) == 1 + SectorsTouched(0, remaining - n)
  {
  }

  lemma NextSector(image: seq<byte>, sector: uint32, j: nat)
    requires j >= 1
    ensures Arrives(image, sector, j) == Arrives(image, (sector + 1) % WORD_LIMIT, j - 1)
  {
    hide Transfers;
    if sector + 1 == WORD_LIMIT {
      assert sector + j == (j - 1) + WORD_LIMIT;
    }
  }

  lemma GatheringEnds(image: seq<byte>, sector: uint32, first: nat, remaining: nat)
    requires first < SECTOR && (remaining == 0 || !Transfers(image, sector, 1))
    ensures Gathered(image, sector, first, remaining) == ([], remaining == 0)
  {
  }

  /** Read a sector and copy `n` of its bytes, from `from` on. */
  method CopyFromSector(drive: Drive, sector: uint32, from: nat, buf: array<byte>, p: nat, n: nat) returns (ok: bool)
    requires buf != drive.data && from + n <= SECTOR && p + n <= buf.Length
    modifies buf
    ensures ok <==> Transfers(drive.data[..], sector, 1)
    ensures ok ==>
              buf[..] == Overlay(old(buf[..]), p, Extent(drive.data[..], sector % LBA_LIMIT, 1)[from..from + n])
    ensures !ok ==> buf[..] == old(buf[..])
  {
    ghost var image := drive.data[..];
    var temp := new byte[SECTOR](_ => 0);
    var status := drive.Read(sector, 1, temp, 0);
    ok := status >= 0;
    if ok {
      ghost var bytes := temp[..];
      assert bytes == Extent(image, sector % LBA_LIMIT, 1);
      MemCpy(buf, p, temp, from, n);
      assert temp[from..from + n] == bytes[from..from + n];
    }
  }

  /** Every sector that holds one of the first `end` bytes of the drive exists. */
  predicate Reaches(image: seq<byte>, end: nat) {
    SectorsNeeded(end) <= LBA_LIMIT && SECTOR * SectorsNeeded(end) <= |image|
  }

  lemma SectorOfByte(image: seq<byte>, end: nat, s: nat, b: nat)
    requires Reaches(image, end) && b < SECTOR && SECTOR * s + b < end
    ensures SectorExists(image, s)
  {
  }

  lemma FileReaches(image: seq<byte>, lba: nat, size: nat, end: nat)
    requires OnDrive(image, lba, size) && end <= SECTOR * lba + size
    ensures Reaches(image, end)
  {
  }

  lemma GatherOne(image: seq<byte>, sector: uint32, first: nat, remaining: nat, n: nat)
    requires first < SECTOR && remaining > 0 && Transfers(image, sector, 1)
    requires n == if SECTOR - first > remaining then remaining else SECTOR - first
    ensures var (rest, ok) := Gathered(image, (sector + 1) % WORD_LIMIT, 0, remaining - n);
            Gathered(image, sector, first, remaining) ==
            (Extent(image, sector % LBA_LIMIT, 1)[first..first + n] + rest, ok)
  {
  }

  lemma SectorThere(image: seq<byte>, sector: nat)
    requires SectorExists(image, sector)
    ensures sector % LBA_LIMIT == sector && Transfers(image, sector, 1)
  {
  }

  lemma ReachesTo(image: seq<byte>, end: nat)
    requires Reaches(image, end)
    ensures end <= |image|
  {
  }

  /** When all sectors up to the end of the range exist, what is gathered is the range. */
  lemma {:induction false} GatheredIsRange(image: seq<byte>, sector: uint32, first: nat, remaining: nat, from: nat)
    requires first < SECTOR && Reaches(image, from + remaining) && from <= |image|
    requires remaining > 0 ==> from == SECTOR * sector + first
    ensures from + remaining <= |image|
    ensures Gathered(image, sector, first, remaining) == (image[from..from + remaining], true)
    decreases remaining
  {
    hide Gathered, Transfers, Reaches;
    if remaining > 0 {
      var n := if SECTOR - first > remaining then remaining else SECTOR - first;
      SectorOfByte(image, from + remaining, sector, first);
      SectorThere(image, sector);
      GatherOne(image, sector, first, remaining, n);
      GatheredIsRange(image, (sector + 1) % WORD_LIMIT, 0, remaining - n, from + n);
      SliceOfSlice(image, SECTOR * sector, SECTOR * (sector + 1), first, first + n, from, from + n);
      JoinSlices(image, from, from + n, from + remaining);
    } else {
      ReachesTo(image, from);
      GatheringEnds(image, sector, first, remaining);
      assert image[from..from] == [];
    }
  }

  lemma JoinSlices(s: seq<byte>, a: nat, b: nat, c: nat)
    requires a <= b <= c <= |s|
    ensures s[a..b] + s[b..c] == s[a..c]
  {
  }

  /** The loop has written `got`, and with what is still to come that is all. */
  ghost predicate Underway(all: (seq<byte>, bool), got: seq<byte>, rest: (seq<byte>, bool)) {
    all == (got + rest.0, rest.1)
  }

  lemma TurnKeepsUnderway(image: seq<byte>, all: (seq<byte>, bool), got: seq<byte>, sector: uint32, first: nat,
                          remaining: nat, n: nat)
    requires first < SECTOR && remaining > 0 && Transfers(image, sector, 1)
    requires Underway(all, got, Gathered(image, sector, first, remaining))
    requires n == if SECTOR - first > remaining then remaining else SECTOR - first
    ensures var chunk := Extent(image, sector % LBA_LIMIT, 1)[first..first + n];
            Underway(all, got + chunk, Gathered(image, (sector + 1) % WORD_LIMIT, 0, remaining - n))
  {
    var chunk := Extent(image, sector % LBA_LIMIT, 1)[first..first + n];
    var rest := Gathered(image, (sector + 1) % WORD_LIMIT, 0, remaining - n).0;
    assert got + (chunk + rest) == (got + chunk) + rest;
  }

  /** The copying loop. */
  method CopyLoop(drive: Drive, start: uint32, first: nat, buf: array<byte>, at: nat, length: nat) returns (ok: bool)
    requires buf != drive.data && at + length <= buf.Length && first < SECTOR
    modifies buf
    ensures ok == Gathered(drive.data[..], start, first, length).1
    ensures buf[..] == Overlay(old(buf[..]), at, Gathered(drive.data[..], start, first, length).0)
  {
    hide Gathered, Overlay, Extent;
    var sector: uint32, sectorOffset: nat, remaining: nat, p: nat := start, first, length, at;
    ghost var image, before, got := drive.data[..], buf[..], [];
    ghost var all := Gathered(image, start, first, length);
    assert got + all.0 == all.0;
    OverlayNothing(before, at);
    while remaining > 0
      invariant remaining + |got| == length && p == at + |got| && sectorOffset < SECTOR && |before| == buf.Length
      invariant buf[..] == Overlay(before, at, got)
      invariant Underway(all, got, Gathered(image, sector, sectorOffset, remaining))
    {
      var copyLen := if SECTOR - sectorOffset > remaining then remaining else SECTOR - sectorOffset;
      ok := CopyFromSector(drive, sector, sectorOffset, buf, p, copyLen);
      if !ok {
        GatheringEnds(image, sector, sectorOffset, remaining);
        assert got + [] == got;
        return;
      }
      ghost var chunk := Extent(image, sector % LBA_LIMIT, 1)[sectorOffset..sectorOffset + copyLen];
      TurnKeepsUnderway(image, all, got, sector, sectorOffset, remaining, copyLen);
      OverlayJoins(before, at, got, chunk, p);
      got := got + chunk;
      remaining := remaining - copyLen;
      p := p + copyLen;
      sector := (sector + 1) % WORD_LIMIT;
      sectorOffset := 0;
    }
    GatheringEnds(image, sector, sectorOffset, remaining);
    assert got + [] == got;
    return true;
  }

  /** What is read of the range, and whether no sector was missing. */
  ghost function RangeRead(image: seq<byte>, startLba: uint32, fileSize: uint32, offset: uint32, size: uint32)
    : (r: (seq<byte>, bool))
    ensures |r.0| <= CopyLength(fileSize, offset, size)
    ensures r.1 ==> |r.0| == CopyLength(fileSize, offset, size)
  {
    if offset >= fileSize then ([], true)
    else
      Gathered(image, (startLba + offset / SECTOR) % WORD_LIMIT, offset % SECTOR, CopyLength(fileSize, offset, size))
  }

  /** kfsExtension0: bytes [offset, offset + size) of the file, as far as it goes, into `buf`
      from `at` on, until a sector is missing. */
  method ReadRange(drive: Drive, startLba: uint32, fileSize: uint32, offset: uint32, buf: array<byte>, at: nat,
                   size: uint32)
    returns (status: int)
    requires buf != drive.data && at + CopyLength(fileSize, offset, size) <= buf.Length
    modifies buf
    ensures status == if RangeRead(drive.data[..], startLba, fileSize, offset, size).1 then 0 else -1
    ensures buf[..] == Overlay(old(buf[..]), at, RangeRead(drive.data[..], startLba, fileSize, offset, size).0)
  {
    hide Gathered;
    if offset >= fileSize {
      return 0;
    }
    var length := if (offset + size) % WORD_LIMIT > fileSize then fileSize - offset else size;
    var sector: uint32 := (startLba + offset / SECTOR) % WORD_LIMIT;
    assert length == CopyLength(fileSize, offset, size);
    var ok := CopyLoop(drive, sector, offset % SECTOR, buf, at, length);
    return if ok then 0 else -1;
  }

  /** Of a file whose sectors exist, exactly the range is read, cut at the end of the file, unless
      the length goes wrong; no sector outside the file has to exist. */
  lemma FileRangeIsRead(image: seq<byte>, startLba: uint32, fileSize: uint32, offset: uint32, size: uint32)
    requires OnDrive(image, startLba, fileSize) && offset < fileSize
    requires CopyLength(fileSize, offset, size) == RangeLength(fileSize, offset, size)
    ensures var (from, n) := (SECTOR * startLba + offset, RangeLength(fileSize, offset, size));
            from + n <= |image| && RangeRead(image, startLba, fileSize, offset, size) == (image[from..from + n], true)
  {
    hide OnDrive, Reaches, Gathered;
    var from, n := SECTOR * startLba + offset, RangeLength(fileSize, offset, size);
    RangeReaches(image, startLba, fileSize, offset, n, size);
    GatheredIsRange(image, startLba + offset / SECTOR, offset % SECTOR, n, from);
  }

  lemma RangeReaches(image: seq<byte>, lba: uint32, size: nat, offset: uint32, length: nat, asked: nat)
    requires OnDrive(image, lba, size) && offset < size
    requires length == if offset + asked > size then size - offset else asked
    ensures length == RangeLength(size, offset, asked)
    ensures Reaches(image, SECTOR * lba + offset + length) && SECTOR * lba + offset <= |image|
    ensures lba + offset / SECTOR < WORD_LIMIT
    ensures SECTOR * lba + offset == SECTOR * (lba + offset / SECTOR) + offset % SECTOR
  {
    FileReaches(image, lba, size, SECTOR * lba + offset + length);
  }

  /** For a file the volume holds, the range copied is that range of the file's own bytes,
      and it is the corresponding part of what kfs_read transfers. */
  lemma RangeIsOfTheFile(image: seq<byte>, sb: seq<byte>, files: seq<File>, i: nat, offset: nat, n: nat)
    requires Holds(image, sb, files) && i < |files| && offset + n <= |files[i].data|
    ensures var (lba, size) := (StartLba(sb, i), Size(sb, i));
            && size == |files[i].data| && OnDrive(image, lba, size)
            && image[SECTOR * lba + offset..SECTOR * lba + offset + n] == files[i].data[offset..offset + n]
            && image[SECTOR * lba + offset..SECTOR * lba + offset + n]
            == Extent(image, lba, SectorsFor(size))[offset..offset + n]
  {
    hide StoresAt;
    assert StoresAt(image, sb, i, files[i]);
    RangeOfStored(image, sb, i, files[i], offset, n);
  }

  /** The whole way: a range of a file that the volume holds, however large, is read as it is. */
  lemma HeldRangeIsRead(image: seq<byte>, sb: seq<byte>, files: seq<File>, i: nat, offset: uint32, size: uint32)
    requires Holds(image, sb, files) && i < |files| && offset < |files[i].data| < WORD_LIMIT
    requires CopyLength(|files[i].data|, offset, size) == RangeLength(|files[i].data|, offset, size)
    ensures var n := RangeLength(|files[i].data|, offset, size);
            RangeRead(image, StartLba(sb, i), Size(sb, i), offset, size) == (files[i].data[offset..offset + n], true)
  {
    hide Holds, RangeRead, OnDrive;
    assert |sb| == SECTOR && i < KFS_MAX_FILES by {
      HeldEntries(image, sb, files);
    }
    RangeIsOfTheFile(image, sb, files, i, offset, RangeLength(|files[i].data|, offset, size));
    FileRangeIsRead(image, StartLba(sb, i), Size(sb, i), offset, size);
  }

  lemma HeldEntries(image: seq<byte>, sb: seq<byte>, files: seq<File>)
    requires Holds(image, sb, files)
    ensures |sb| == SECTOR && |files| <= KFS_MAX_FILES
  {
  }

  lemma RangeOfStored(image: seq<byte>, sb: seq<byte>, i: nat, f: File, offset: nat, n: nat)
    requires |sb| == SECTOR && i < KFS_MAX_FILES && StoresAt(image, sb, i, f) && offset + n <= |f.data|
    requires StartLba(sb, i) + SectorsFor(Size(sb, i)) < LBA_LIMIT
    ensures var (lba, size) := (StartLba(sb, i), Size(sb, i));
            && size == |f.data| && OnDrive(image, lba, size)
            && image[SECTOR * lba + offset..SECTOR * lba + offset + n] == f.data[offset..offset + n]
            && image[SECTOR * lba + offset..SECTOR * lba + offset + n]
            == Extent(image, lba, SectorsFor(size))[offset..offset + n]
  {
    hide Named;
    var lba, size := StartLba(sb, i), Size(sb, i);
    var a, b := SECTOR * lba + offset, SECTOR * lba + offset + n;
    SliceOfSlice(image, SECTOR * lba, SECTOR * lba + size, offset, offset + n, a, b);
    SliceOfSlice(image, SECTOR * lba, SECTOR * (lba + SectorsFor(size)), offset, offset + n, a, b);
  }
}
