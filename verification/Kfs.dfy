/** The kernel's file system: a superblock held in memory, kept as the raw sector it is
    read from and written to, over a drive. */
module Kfs {
  import opened Options
  import opened Words
  import opened Disk
  import opened KfsLayout

  const ERR_SUCCESS: int := 0
  const ERR_NOT_FOUND: int := 1

  /** Entry k is the first of the volume with the given name; None: there is no such entry. */
  ghost predicate FirstNamed(sb: seq<byte>, name: seq<byte>, k: Option<nat>)
    requires |sb| == SECTOR && Count(sb) <= KFS_MAX_FILES
  {
    match k
    case Some(i) => i < Count(sb) && Named(sb, i, name) && forall j: nat :: j < i ==> !Named(sb, j, name)
    case None => forall j: nat :: j < Count(sb) ==> !Named(sb, j, name)
  }

  /** What is wanted of a file for its sectors to be read in one transfer. */
  ghost predicate Readable(image: seq<byte>, sb: seq<byte>, i: nat)
    requires |sb| == SECTOR && i < KFS_MAX_FILES
  {
    && 1 <= SectorsFor(Size(sb, i)) <= 255 && StartLba(sb, i) < LBA_LIMIT
    && SECTOR * (StartLba(sb, i) + SectorsFor(Size(sb, i))) <= |image|
  }

  /** The sector count that reaches the drive, which takes 8 bits of it. */
  function Transferred(sb: seq<byte>, i: nat): nat
    requires |sb| == SECTOR && i < KFS_MAX_FILES
  {
    SectorsFor(Size(sb, i)) % 256
  }

  /** `after` is the buffer `before` with the sectors of file i at its front. */
  ghost predicate ReadBack(image: seq<byte>, sb: seq<byte>, i: nat, before: seq<byte>, after: seq<byte>)
    requires |sb| == SECTOR && i < KFS_MAX_FILES
    requires SECTOR * (StartLba(sb, i) + SectorsFor(Size(sb, i))) <= |image|
  {
    && SECTOR * SectorsFor(Size(sb, i)) <= |before|
    && after == Overlay(before, 0, Extent(image, StartLba(sb, i), SectorsFor(Size(sb, i))))
  }

  /** What a read of file i does in every case: the sectors that arrive are at the front of the
      buffer, and the status tells whether all did that were asked for. */
  ghost predicate FileRead(image: seq<byte>, sb: seq<byte>, i: nat, before: seq<byte>, after: seq<byte>, status: int)
    requires |sb| == SECTOR && i < KFS_MAX_FILES
  {
    var lba, n := StartLba(sb, i), Transferred(sb, i);
    && SECTOR * n <= |before|
    && after == Overlay(before, 0, Delivered(image, lba, n))
    && status == if Transfers(image, lba, n) then n else ERR_FAILED
  }

  /** A readable file is read in full. */
  lemma ReadableIsRead(image: seq<byte>, sb: seq<byte>, i: nat, before: seq<byte>, after: seq<byte>, status: int)
    requires |sb| == SECTOR && i < KFS_MAX_FILES && Readable(image, sb, i)
    requires FileRead(image, sb, i, before, after, status)
    ensures ReadBack(image, sb, i, before, after) && status == SectorsFor(Size(sb, i))
  {
    FewSectors(StartLba(sb, i), SectorsFor(Size(sb, i)));
  }

  lemma FewSectors(lba: nat, n: nat)
    requires lba < LBA_LIMIT && n <= 255
    ensures lba % LBA_LIMIT == lba && n % 256 == n
  {
  }

  lemma EmptyIsLaidOut(sb: seq<byte>)
    requires |sb| == SECTOR && sb[0..4] == Le(KFS_MAGIC) && sb[4..8] == Le(0)
    ensures LaidOut(sb) && Count(sb) == 0
  {
    LeReadsBack(KFS_MAGIC, sb, 0);
    LeReadsBack(0, sb, 4);
  }

  /** The superblock before the start sector is filled in. */
  function Unplaced(sb: seq<byte>, n: nat, name: seq<byte>, size: uint32): (r: seq<byte>)
    requires |sb| == SECTOR && n < KFS_MAX_FILES && |name| < NAME_BYTES
    ensures |r| == SECTOR
  {
    Overlay(Overlay(Overlay(sb, 4, Le(n + 1)), EntryAt(n), name + [0]), EntryAt(n) + 36, Le(size))
  }

  lemma UnplacedIsFilledIn(sb: seq<byte>, n: nat, name: seq<byte>, size: uint32)
    requires |sb| == SECTOR && n < KFS_MAX_FILES && |name| < NAME_BYTES
    ensures FilledIn(sb, n, Le(n + 1), name + [0], Le(size), Unplaced(sb, n, name, size))
  {
    ThreeOverlays(sb, n, Le(n + 1), name + [0], Le(size));
  }

  lemma ThreeOverlays(sb: seq<byte>, n: nat, count: seq<byte>, name0: seq<byte>, size: seq<byte>)
    requires |sb| == SECTOR && n < KFS_MAX_FILES && |name0| <= NAME_BYTES && |count| == |size| == 4
    ensures FilledIn(sb, n, count, name0, size,
                     Overlay(Overlay(Overlay(sb, 4, count), EntryAt(n), name0), EntryAt(n) + 36, size))
  {
  }

  /** Filling in the start sector as well touches nothing else. */
  lemma PlacedStaysFilledIn(sb: seq<byte>, n: nat, count: seq<byte>, name0: seq<byte>, size: seq<byte>,
                            u: seq<byte>, place: seq<byte>)
    requires |sb| == SECTOR && n < KFS_MAX_FILES && |name0| <= NAME_BYTES && |place| == 4
    requires FilledIn(sb, n, count, name0, size, u)
    ensures FilledIn(sb, n, count, name0, size, Overlay(u, EntryAt(n) + 32, place))
  {
    var e := EntryAt(n);
    OverlayElsewhere(u, e + 32, place, 0, 4);
    OverlayElsewhere(u, e + 32, place, 4, 8);
    OverlayElsewhere(u, e + 32, place, 8, e);
    OverlayElsewhere(u, e + 32, place, e, e + |name0|);
    OverlayElsewhere(u, e + 32, place, e + |name0|, e + 32);
    OverlayElsewhere(u, e + 32, place, e + 36, e + 40);
    OverlayElsewhere(u, e + 32, place, e + 40, SECTOR);
  }

  lemma KeptByOverlays(sb: seq<byte>, n: nat, name: seq<byte>, size: uint32)
    requires |sb| == SECTOR && n < KFS_MAX_FILES && |name| < NAME_BYTES
    ensures SectorsBefore(Unplaced(sb, n, name, size), n) == SectorsBefore(sb, n)
  {
    var r := Unplaced(sb, n, name, size);
    UnplacedIsFilledIn(sb, n, name, size);
    forall i: nat | i < n ensures SameEntry(r, sb, i) {
      EntryOfBytes(r, sb, n, i);
    }
    SameSectorsBefore(r, sb, n);
  }

  lemma OverlaysAppend(sb: seq<byte>, n: nat, name: seq<byte>, size: uint32, lba: uint32)
    requires |sb| == SECTOR && n == Count(sb) < KFS_MAX_FILES && |name| < NAME_BYTES
    requires lba == 1 + SectorsBefore(sb, n)
    ensures IsAppended(sb, name, size, Overlay(Unplaced(sb, n, name, size), EntryAt(n) + 32, Le(lba)))
  {
    UnplacedIsFilledIn(sb, n, name, size);
    PlacedStaysFilledIn(sb, n, Le(n + 1), name + [0], Le(size), Unplaced(sb, n, name, size), Le(lba));
    OverlayThere(Unplaced(sb, n, name, size), EntryAt(n) + 32, Le(lba));
  }

  /** The drive has a sector 0 and, from `lba` >= 1 on, room for `size` bytes, which one
      transfer can carry. */
  predicate HasRoom(image: seq<byte>, lba: nat, size: uint32) {
    && SectorsFor(size) <= 255 && 1 <= lba < LBA_LIMIT
    && SECTOR <= |image| && SECTOR * (lba + SectorsFor(size)) <= |image|
  }

  /** The superblock's sector is written if the drive has one. */
  ghost predicate SuperblockWritten(image: seq<byte>, sb: seq<byte>, after: seq<byte>, status: int)
    requires |sb| == SECTOR
  {
    if SECTOR <= |image| then status == 1 && after == Overlay(image, 0, sb)
    else status == ERR_FAILED && after == image
  }

  /** What kfs_write does to the drive in every case: the data sectors that are there, of the
      count modulo 256, then the superblock; only the second transfer decides the status. */
  ghost predicate FileWritten(image: seq<byte>, lba: nat, data: seq<byte>, size: uint32, sb: seq<byte>,
                              after: seq<byte>,
                              status: int)
    requires |sb| == SECTOR && SECTOR * (SectorsFor(size) % 256) <= |data|
  {
    SuperblockWritten(Written(image, lba, SectorsFor(size) % 256, data), sb, after, status)
  }

  /** With room for it, the whole file is stored. */
  lemma RoomStores(image: seq<byte>, lba: nat, data: seq<byte>, size: uint32, sb: seq<byte>, after: seq<byte>,
                   status: int)
    requires |sb| == SECTOR && SECTOR * (SectorsFor(size) % 256) <= |data| && HasRoom(image, lba, size)
    requires FileWritten(image, lba, data, size, sb, after, status)
    ensures SECTOR * SectorsFor(size) <= |data|
    ensures status == 1 && IsStored(image, SECTOR * lba, data[..SECTOR * SectorsFor(size)], sb, after)
  {
    FewSectors(lba, SectorsFor(size));
    var t := data[..SECTOR * SectorsFor(size)];
    assert Written(image, lba, SectorsFor(size), data) == Overlay(image, SECTOR * lba, t);
    OverlaysStore(image, SECTOR * lba, t, sb);
  }

  /** `r` is the image with the bytes `t` at offset `off` and `sb'` in sector 0, and is
      otherwise unchanged. */
  ghost predicate IsStored(image: seq<byte>, off: nat, t: seq<byte>, sb': seq<byte>, r: seq<byte>)
    requires |sb'| == SECTOR <= off && off + |t| <= |image|
  {
    && |r| == |image|
    && r[..SECTOR] == sb' && r[SECTOR..off] == image[SECTOR..off]
    && r[off..off + |t|] == t && r[off + |t|..] == image[off + |t|..]
  }

  lemma OverlaysStore(image: seq<byte>, off: nat, t: seq<byte>, sb': seq<byte>)
    requires |sb'| == SECTOR <= off && off + |t| <= |image|
    ensures IsStored(image, off, t, sb', Overlay(Overlay(image, off, t), 0, sb'))
  {
  }

  /** The superblock has its magic and otherwise zeros; behind it the sector is as before. */
  ghost predicate Cleared(before: seq<byte>, after: seq<byte>) {
    && |before| == |after| == SECTOR && after[..4] == Le(KFS_MAGIC)
    && (forall k :: 4 <= k < SUPERBLOCK_BYTES ==> after[k] == 0)
    && after[SUPERBLOCK_BYTES..] == before[SUPERBLOCK_BYTES..]
  }

  /** Where the next file goes: the first sector after all others. */
  function NextFree(sb: seq<byte>): uint32
    requires |sb| == SECTOR && Count(sb) <= KFS_MAX_FILES
  {
    1 + SectorsBefore(sb, Count(sb))
  }

  class Volume {
    const drive: Drive
    const sb: array<byte>

    ghost predicate Valid()
      reads this
    {
      sb.Length == SECTOR && sb != drive.data
    }

    constructor (drive: Drive)
      ensures this.drive == drive && Valid() && fresh(sb)
    {
      this.drive := drive;
      sb := new byte[SECTOR](_ => 0);
    }

    /** Every used entry's name ends inside its field. */
    ghost predicate Terminated()
      requires Valid()
      reads this, sb
    {
      && Count(sb[..]) <= KFS_MAX_FILES
      && forall i: nat :: i < Count(sb[..]) ==> 0 in NameField(sb[..], i)
    }

    /** kfs_mount: false stands for a panic. */
    method Mount() returns (ok: bool)
      requires Valid()
      modifies sb
      ensures ok <==> SECTOR <= drive.data.Length && Magic(drive.data[..SECTOR]) == KFS_MAGIC
      ensures ok ==> sb[..] == drive.data[..SECTOR]
    {
      var status := drive.Read(0, 1, sb, 0);
      if status < 0 {
        return false;
      }
      assert Transfers(drive.data[..], 0, 1);
      assert sb[..] == drive.data[..SECTOR];
      return Magic(sb[..]) == KFS_MAGIC;
    }

    method PutBytes(off: nat, t: seq<byte>)
      requires Valid() && off + |t| <= SECTOR
      modifies sb
      ensures sb[..] == Overlay(old(sb[..]), off, t)
    {
      forall i | off <= i < off + |t| {
        sb[i] := t[i - off];
      }
    }

    /** kfs_mkfs: clear the superblock, set its magic, write it out. */
    method Mkfs() returns (status: int)
      requires Valid()
      modifies sb, drive.data
      ensures LaidOut(sb[..]) && Count(sb[..]) == 0 && Cleared(old(sb[..]), sb[..])
      ensures SuperblockWritten(old(drive.data[..]), sb[..], drive.data[..], status)
    {
      ClearSuperblock();
      status := WriteSuperblock();
    }

    method ClearSuperblock()
      requires Valid()
      modifies sb
      ensures LaidOut(sb[..]) && Count(sb[..]) == 0 && Cleared(old(sb[..]), sb[..])
    {
      PutBytes(0, Zeros(SUPERBLOCK_BYTES));
      PutBytes(0, Le(KFS_MAGIC));
      assert sb[..][0..4] == Le(KFS_MAGIC) && sb[..][4..8] == Le(0);
      EmptyIsLaidOut(sb[..]);
    }

    /** kfs_find: the index of the first entry with that name. */
    method Find(name: seq<byte>) returns (k: Option<nat>)
      requires Valid() && Terminated() && 0 !in name
      ensures FirstNamed(sb[..], name, k)
    {
      CStrOf(name, []);
      assert name + [0] + [] == name + [0];
      for i := 0 to Count(sb[..])
        invariant forall j: nat :: j < i ==> !Named(sb[..], j, name)
      {
        var c := StrCmp(NameField(sb[..], i), name + [0]);
        if c == 0 {
          return Some(i);
        }
      }
      return None;
    }

    /** kfs_read, into `buf`, which has room for what is transferred. */
    method ReadFile(name: seq<byte>, buf: array<byte>) returns (status: int)
      requires Valid() && Terminated() && 0 !in name
      requires buf != drive.data && buf != sb
      requires forall i: nat :: FirstNamed(sb[..], name, Some(i)) ==> SECTOR * Transferred(sb[..], i) <= buf.Length
      modifies buf
      ensures FirstNamed(sb[..], name, None) ==> status == ERR_NOT_FOUND && buf[..] == old(buf[..])
      ensures forall i: nat :: FirstNamed(sb[..], name, Some(i)) ==>
                FileRead(drive.data[..], sb[..], i, old(buf[..]), buf[..], status)
    {
      var k := Find(name);
      if k.None? {
        return ERR_NOT_FOUND;
      }
      assert forall i: nat :: FirstNamed(sb[..], name, Some(i)) ==> i == k.value;
      status := ReadEntry(k.value, buf);
    }

    method ReadEntry(i: nat, buf: array<byte>) returns (status: int)
      requires Valid() && i < KFS_MAX_FILES
      requires buf != drive.data && buf != sb && SECTOR * Transferred(sb[..], i) <= buf.Length
      modifies buf
      ensures FileRead(drive.data[..], sb[..], i, old(buf[..]), buf[..], status)
    {
      var lba, sectors := StartLba(sb[..], i), SectorsFor(Size(sb[..], i));
      ghost var image, b := drive.data[..], sb[..];
      status := drive.Read(lba, sectors % 256, buf, 0);
      assert sb[..] == b && drive.data[..] == image;
    }

    /** strcpy into the superblock at `off`. */
    method StrCpy(off: nat, name: seq<byte>)
      requires Valid() && off + |name| + 1 <= SECTOR
      modifies sb
      ensures sb[..] == Overlay(old(sb[..]), off, name + [0])
    {
      PutBytes(off, name + [0]);
    }

    /** The summing loop of kfs_write: the first sector after the n files before. */
    method NextLba(n: nat) returns (lba: uint32)
      requires Valid() && n < KFS_MAX_FILES
      ensures lba == 1 + SectorsBefore(sb[..], n)
    {
      lba := 1;
      for i := 0 to n
        invariant lba == 1 + SectorsBefore(sb[..], i)
      {
        lba := lba + SectorsFor(Size(sb[..], i));
      }
    }

    /** Count the new file, and put its name and size in place. */
    method FillEntry(n: nat, name: seq<byte>, size: uint32)
      requires Valid() && n < KFS_MAX_FILES && |name| < NAME_BYTES
      modifies sb
      ensures sb[..] == Unplaced(old(sb[..]), n, name, size)
    {
      PutBytes(4, Le(n + 1));
      StrCpy(EntryAt(n), name);
      PutBytes(EntryAt(n) + 36, Le(size));
    }

    /** The part of kfs_write that fills in the new entry. */
    method AddEntry(name: seq<byte>, size: uint32) returns (lba: uint32)
      requires Valid() && Count(sb[..]) < KFS_MAX_FILES && |name| < NAME_BYTES
      modifies sb
      ensures IsAppended(old(sb[..]), name, size, sb[..])
      ensures lba == NextFree(old(sb[..]))
    {
      ghost var b0 := sb[..];
      var n := Count(sb[..]);
      FillEntry(n, name, size);
      KeptByOverlays(b0, n, name, size);
      lba := NextLba(n);
      PutBytes(EntryAt(n) + 32, Le(lba));
      OverlaysAppend(b0, n, name, size, lba);
    }

    /** kfs_write; `data` is readable for the whole sectors that are transferred. */
    method WriteFile(name: seq<byte>, data: seq<byte>, size: uint32) returns (status: int)
      requires Valid() && 0 !in name && |name| < NAME_BYTES && SECTOR * (SectorsFor(size) % 256) <= |data|
      modifies sb, drive.data
      ensures Count(old(sb[..])) >= KFS_MAX_FILES ==>
                status == ERR_FAILED && sb[..] == old(sb[..]) && drive.data[..] == old(drive.data[..])
      ensures Count(old(sb[..])) < KFS_MAX_FILES ==>
                && IsAppended(old(sb[..]), name, size, sb[..])
                && FileWritten(old(drive.data[..]), NextFree(old(sb[..])), data, size, sb[..], drive.data[..], status)
    {
      if Count(sb[..]) >= KFS_MAX_FILES {
        return ERR_FAILED;
      }
      var lba := AddEntry(name, size);
      status := WriteOut(lba, data, size);
    }

    /** The two transfers that end kfs_write; the status of the first is ignored. */
    method WriteOut(lba: uint32, data: seq<byte>, size: uint32) returns (status: int)
      requires Valid() && SECTOR * (SectorsFor(size) % 256) <= |data|
      modifies drive.data
      ensures FileWritten(old(drive.data[..]), lba, data, size, sb[..], drive.data[..], status)
    {
      var ignored := drive.Write(lba, SectorsFor(size) % 256, data);
      status := WriteSuperblock();
    }

    method WriteSuperblock() returns (status: int)
      requires Valid()
      modifies drive.data
      ensures SuperblockWritten(old(drive.data[..]), sb[..], drive.data[..], status)
    {
      assert sb[..][..SECTOR] == sb[..];
      status := drive.Write(0, 1, sb[..]);
    }
  }
}
