/** What a volume holds, as a list of named files, and how each operation of the file
    system acts on that list. */
module KfsContents {
  import opened Options
  import opened Words
  import opened Disk
  import opened KfsLayout
  import opened Kfs

  datatype File = File(name: seq<byte>, data: seq<byte>)

  /** What one transfer can carry, and the largest size whose sectors the kernel counts rightly. */
  const MAX_FILE_BYTES: nat := 255 * SECTOR
  const MAX_SIZE: nat := WORD_LIMIT - SECTOR

  /** Entry i of the superblock describes `f`, and the bytes of `f` are in its extent. */
  ghost predicate StoresAt(image: seq<byte>, sb: seq<byte>, i: nat, f: File)
    requires |sb| == SECTOR && i < KFS_MAX_FILES
  {
    && Named(sb, i, f.name) && Size(sb, i) == |f.data| <= MAX_SIZE
    && SECTOR * (StartLba(sb, i) + SectorsFor(Size(sb, i))) <= |image|
    && SECTOR * StartLba(sb, i) + |f.data| <= |image|
    && image[SECTOR * StartLba(sb, i)..SECTOR * StartLba(sb, i) + |f.data|] == f.data
  }

  /** The disk and the superblock in memory hold exactly `files`, in this order. */
  ghost predicate Holds(image: seq<byte>, sb: seq<byte>, files: seq<File>) {
    && LaidOut(sb) && Count(sb) == |files|
    && SECTOR <= |image| && image[..SECTOR] == sb
    && forall i: nat :: i < |files| ==> StoresAt(image, sb, i, files[i])
  }

  /** kfs_find comes to a file whose name no earlier file has; its start sector has a valid address. */
  lemma HeldFileIsFound(image: seq<byte>, sb: seq<byte>, files: seq<File>, i: nat)
    requires Holds(image, sb, files) && i < |files|
    requires forall j: nat :: j < i ==> files[j].name != files[i].name
    ensures FirstNamed(sb, files[i].name, Some(i)) && StartLba(sb, i) + SectorsFor(Size(sb, i)) < LBA_LIMIT
  {
    forall j: nat | j < i ensures !Named(sb, j, files[i].name) {
      assert StoresAt(image, sb, j, files[j]);
    }
    assert StoresAt(image, sb, i, files[i]);
  }

  /** A non-empty file that one transfer can carry, and whose name no earlier file has, is read back,
      whatever the other files are: its sectors are transferred in one go, and start with its bytes. */
  lemma HeldFileIsRead(image: seq<byte>, sb: seq<byte>, files: seq<File>, i: nat)
    requires Holds(image, sb, files) && i < |files| && 1 <= |files[i].data| <= MAX_FILE_BYTES
    requires forall j: nat :: j < i ==> files[j].name != files[i].name
    ensures FirstNamed(sb, files[i].name, Some(i)) && Readable(image, sb, i)
    ensures Extent(image, StartLba(sb, i), SectorsFor(Size(sb, i)))[..|files[i].data|] == files[i].data
  {
    HeldFileIsFound(image, sb, files, i);
    assert StoresAt(image, sb, i, files[i]);
    var lba, n := StartLba(sb, i), |files[i].data|;
    var extent := Extent(image, lba, SectorsFor(n));
    SliceOfSlice(image, SECTOR * lba, SECTOR * (lba + SectorsFor(n)), 0, n, SECTOR * lba, SECTOR * lba + n);
    assert extent[..n] == extent[0..n];
  }

  /** A file whose entry and whose sectors stay the same is still stored. */
  lemma FileStays(image: seq<byte>, sb: seq<byte>, i: nat, f: File, image': seq<byte>, sb': seq<byte>, top: nat)
    requires |sb| == |sb'| == SECTOR && i < KFS_MAX_FILES && StoresAt(image, sb, i, f) && SameEntry(sb', sb, i)
    requires 1 <= StartLba(sb, i) && SECTOR * (StartLba(sb, i) + SectorsFor(Size(sb, i))) <= top
    requires SECTOR <= top <= |image| == |image'| && image'[SECTOR..top] == image[SECTOR..top]
    ensures StoresAt(image', sb', i, f)
  {
    var a := SECTOR * StartLba(sb, i);
    SliceOfEqual(image', image, SECTOR, top, a, a + |f.data|);
  }

  /** An earlier file keeps its entry and its bytes. */
  lemma EarlierFileStays(image: seq<byte>, sb: seq<byte>, i: nat, f: File, t: seq<byte>, image': seq<byte>,
                         sb': seq<byte>)
    requires LaidOut(sb) && i < Count(sb) && |sb'| == SECTOR && SECTOR * NextFree(sb) + |t| <= |image|
    requires IsStored(image, SECTOR * NextFree(sb), t, sb', image')
    requires SameEntry(sb', sb, i) && StoresAt(image, sb, i, f)
    ensures StoresAt(image', sb', i, f)
  {
    SectorsBeforeGrows(sb, i, Count(sb));
    FileStays(image, sb, i, f, image', sb', SECTOR * NextFree(sb));
  }

  lemma EarlierFilesStay(image: seq<byte>, sb: seq<byte>, files: seq<File>, t: seq<byte>, image': seq<byte>,
                         sb': seq<byte>)
    requires Holds(image, sb, files) && |sb'| == SECTOR && SECTOR * NextFree(sb) + |t| <= |image|
    requires IsStored(image, SECTOR * NextFree(sb), t, sb', image')
    requires forall i: nat :: i < Count(sb) ==> SameEntry(sb', sb, i)
    ensures forall i: nat :: i < |files| ==> StoresAt(image', sb', i, files[i])
  {
    forall i: nat | i < |files| ensures StoresAt(image', sb', i, files[i]) {
      EarlierFileStays(image, sb, i, files[i], t, image', sb');
    }
  }

  /** The new file is where its entry says. */
  lemma NewFileIsStored(image: seq<byte>, sb: seq<byte>, f: File, t: seq<byte>, image': seq<byte>, sb': seq<byte>)
    requires LaidOut(sb) && Count(sb) < KFS_MAX_FILES && |sb'| == SECTOR && SECTOR * NextFree(sb) + |t| <= |image|
    requires IsStored(image, SECTOR * NextFree(sb), t, sb', image')
    requires |f.data| <= MAX_FILE_BYTES && |t| == SECTOR * SectorsFor(|f.data|) && f.data == t[..|f.data|]
    requires var n := Count(sb);
             Named(sb', n, f.name) && Size(sb', n) == |f.data| && StartLba(sb', n) == 1 + SectorsBefore(sb, n)
    ensures StoresAt(image', sb', Count(sb), f)
  {
    var off := SECTOR * NextFree(sb);
    assert image'[off..off + |f.data|] == image'[off..off + |t|][..|f.data|];
  }

  /** A successful kfs_write adds one file and leaves all others as they were. The image it
      leaves has the new superblock in sector 0, so mounting it again gives the same files. */
  lemma WriteAddsFile(image: seq<byte>, sb: seq<byte>, files: seq<File>, f: File, t: seq<byte>,
                      image': seq<byte>, sb': seq<byte>)
    requires Holds(image, sb, files) && |files| < KFS_MAX_FILES && 0 !in f.name && |f.name| < NAME_BYTES
    requires |f.data| <= MAX_FILE_BYTES && |t| == SECTOR * SectorsFor(|f.data|) && f.data == t[..|f.data|]
    requires SECTOR * NextFree(sb) + |t| <= |image|
    requires IsAppended(sb, f.name, |f.data|, sb') && IsStored(image, SECTOR * NextFree(sb), t, sb', image')
    ensures Holds(image', sb', files + [f])
  {
    AppendedMeans(sb, f.name, |f.data|, sb');
    StoredHolds(image, sb, files, f, t, image', sb');
  }

  lemma StoredHolds(image: seq<byte>, sb: seq<byte>, files: seq<File>, f: File, t: seq<byte>,
                    image': seq<byte>, sb': seq<byte>)
    requires Holds(image, sb, files) && |files| < KFS_MAX_FILES && |f.data| <= MAX_FILE_BYTES
    requires AppendedEntryOf(sb, f.name, |f.data|, sb') && |t| == SECTOR * SectorsFor(|f.data|)
    requires f.data == t[..|f.data|]
    requires SECTOR * NextFree(sb) + |t| <= |image| && IsStored(image, SECTOR * NextFree(sb), t, sb', image')
    ensures Holds(image', sb', files + [f])
  {
    hide StoresAt;
    NewFileIsStored(image, sb, f, t, image', sb');
    EarlierFilesStay(image, sb, files, t, image', sb');
  }

  /** A formatted volume holds no files. */
  lemma FormattedHoldsNothing(image: seq<byte>, sb: seq<byte>)
    requires LaidOut(sb) && Count(sb) == 0 && SECTOR <= |image|
    ensures Holds(Overlay(image, 0, sb), sb, [])
  {
    OverlayThere(image, 0, sb);
  }
}
