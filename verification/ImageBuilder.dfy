/** The host-side image builder: a superblock sector followed by the padded files. */
module ImageBuilder {
  import opened Words
  import opened Disk
  import opened KfsLayout
  import opened KfsContents

  /** Sectors for `size` bytes, in unbounded arithmetic. */
  function SectorsNeeded(size: nat): (n: nat)
    ensures SECTOR * n >= size && (n > 0 ==> SECTOR * (n - 1) < size)
  {
    (size + SECTOR - 1) / SECTOR
  }

  /** A name cut or NUL-padded to 32 bytes. */
  function NameBytes(name: seq<byte>): (r: seq<byte>)
    ensures |r| == NAME_BYTES
  {
    if |name| >= NAME_BYTES then name[..NAME_BYTES] else name + Zeros(NAME_BYTES - |name|)
  }

  /** First sector of file i. */
  ghost function LbaOf(files: seq<File>, i: nat): (n: nat)
    requires i <= |files|
    ensures n >= 1
  {
    if i == 0 then 1 else LbaOf(files, i - 1) + SectorsNeeded(|files[i - 1].data|)
  }

  /** The packer can express every size and start sector in 32 bits. */
  ghost predicate Packable(files: seq<File>) {
    |files| <= KFS_MAX_FILES && forall i: nat :: i < |files| ==> |files[i].data| < WORD_LIMIT
  }

  lemma {:induction false} LbaIsSmall(files: seq<File>, i: nat)
    requires Packable(files) && i <= |files|
    ensures LbaOf(files, i) <= 1 + 0x80_0000 * i < WORD_LIMIT
  {
    if i > 0 {
      LbaIsSmall(files, i - 1);
      assert |files[i - 1].data| < WORD_LIMIT;
    }
  }

  ghost function EntryBytes(f: File, lba: uint32): (r: seq<byte>)
    requires |f.data| < WORD_LIMIT
    ensures |r| == ENTRY_BYTES
  {
    NameBytes(f.name) + Le(lba) + Le(|f.data|)
  }

  ghost function Entries(files: seq<File>, i: nat): (r: seq<byte>)
    requires Packable(files) && i <= |files|
    ensures |r| == ENTRY_BYTES * i
  {
    if i == 0 then []
    else
      LbaIsSmall(files, i - 1);
      Entries(files, i - 1) + EntryBytes(files[i - 1], LbaOf(files, i - 1))
  }

  function Padded(data: seq<byte>): (r: seq<byte>)
    ensures |r| == SECTOR * SectorsNeeded(|data|)
  {
    data + Zeros(SECTOR * SectorsNeeded(|data|) - |data|)
  }

  ghost function Contents(files: seq<File>, i: nat): (r: seq<byte>)
    requires i <= |files|
    ensures |r| == SECTOR * (LbaOf(files, i) - 1)
  {
    if i == 0 then [] else Contents(files, i - 1) + Padded(files[i - 1].data)
  }

  ghost function Superblock(files: seq<File>): (r: seq<byte>)
    requires Packable(files)
    ensures |r| == SECTOR
  {
    Le(KFS_MAGIC) + Le(|files|) + Entries(files, |files|) + Zeros(SECTOR - HEADER_BYTES - ENTRY_BYTES * |files|)
  }

  ghost function Image(files: seq<File>): seq<byte>
    requires Packable(files)
  {
    Superblock(files) + Contents(files, |files|)
  }

  /** genkfs: pack the first eight of the listed files into an image. */
  method BuildImage(listing: seq<File>) returns (img: seq<byte>)
    requires Packable(if |listing| > KFS_MAX_FILES then listing[..KFS_MAX_FILES] else listing)
    ensures img == Image(if |listing| > KFS_MAX_FILES then listing[..KFS_MAX_FILES] else listing)
  {
    var files := if |listing| > KFS_MAX_FILES then listing[..KFS_MAX_FILES] else listing;
    var superblock := Le(KFS_MAGIC) + Le(|files|);
    var fileEntries, currentLba, fileData := [], 1, [];
    for i := 0 to |files|
      invariant currentLba == LbaOf(files, i)
      invariant fileEntries == Entries(files, i)
      invariant fileData == Contents(files, i)
    {
      hide Entries, Contents, SectorsNeeded, Zeros, NameBytes, Le;
      OneMoreFile(files, i);
      var data := files[i].data;
      var sectors := SectorsNeeded(|data|);
      fileEntries := fileEntries + (NameBytes(files[i].name) + Le(currentLba) + Le(|data|));
      currentLba := currentLba + sectors;
      fileData := fileData + (data + Zeros(sectors * SECTOR - |data|));
    }
    superblock := FinishSuperblock(superblock, fileEntries, |files|);
    return superblock + fileData;
  }

  /** What one more file adds to the entries and to the contents. */
  lemma OneMoreFile(files: seq<File>, i: nat)
    requires Packable(files) && i < |files|
    ensures LbaOf(files, i) < WORD_LIMIT && |files[i].data| < WORD_LIMIT
    ensures var (name, data, sectors) := (files[i].name, files[i].data, SectorsNeeded(|files[i].data|));
            && Entries(files, i + 1)
            == Entries(files, i) + (NameBytes(name) + Le(LbaOf(files, i)) + Le(|data|))
            && Contents(files, i + 1) == Contents(files, i) + (data + Zeros(sectors * SECTOR - |data|))
  {
    hide SectorsNeeded, Zeros, NameBytes, Le;
    LbaIsSmall(files, i);
  }

  /** Pad the table to eight entries and the superblock to a sector. */
  method FinishSuperblock(header: seq<byte>, entries: seq<byte>, n: nat) returns (superblock: seq<byte>)
    requires n <= KFS_MAX_FILES && |header| == HEADER_BYTES && |entries| == ENTRY_BYTES * n
    ensures superblock == header + entries + Zeros(SECTOR - HEADER_BYTES - ENTRY_BYTES * n)
  {
    var fileEntries := entries + Zeros(ENTRY_BYTES * (KFS_MAX_FILES - n));
    superblock := header + fileEntries;
    superblock := superblock + Zeros(SECTOR - |superblock|);
    PaddingJoins(header, entries, ENTRY_BYTES * (KFS_MAX_FILES - n), SECTOR - SUPERBLOCK_BYTES);
  }

  lemma PaddingJoins(head: seq<byte>, body: seq<byte>, a: nat, b: nat)
    ensures head + (body + Zeros(a)) + Zeros(b) == head + body + Zeros(a + b)
  {
  }

  lemma {:induction false} EntriesAt(files: seq<File>, n: nat, i: nat)
    requires Packable(files) && i < n <= |files|
    ensures LbaOf(files, i) < WORD_LIMIT
    ensures Entries(files, n)[ENTRY_BYTES * i..ENTRY_BYTES * i + ENTRY_BYTES] == EntryBytes(files[i], LbaOf(files, i))
  {
    hide EntryBytes, LbaOf;
    LbaIsSmall(files, i);
    LbaIsSmall(files, n - 1);
    var head, last := Entries(files, n - 1), EntryBytes(files[n - 1], LbaOf(files, n - 1));
    var a := ENTRY_BYTES * i;
    if i < n - 1 {
      EntriesAt(files, n - 1, i);
      SliceOfPrefix(Entries(files, n), head, last, a, a + ENTRY_BYTES);
    } else {
      SliceOfSuffix(Entries(files, n), head, last, a, a + ENTRY_BYTES);
    }
  }

  lemma {:induction false} LbaGrows(files: seq<File>, i: nat, n: nat)
    requires i < n <= |files|
    ensures LbaOf(files, i) + SectorsNeeded(|files[i].data|) <= LbaOf(files, n)
  {
    if i < n - 1 {
      LbaGrows(files, i, n - 1);
    }
  }

  lemma {:induction false} ContentsAt(files: seq<File>, n: nat, i: nat)
    requires i < n <= |files|
    ensures LbaOf(files, i) + SectorsNeeded(|files[i].data|) <= LbaOf(files, n)
    ensures var (lba, k) := (LbaOf(files, i), SectorsNeeded(|files[i].data|));
            Contents(files, n)[SECTOR * (lba - 1)..SECTOR * (lba - 1 + k)] == Padded(files[i].data)
  {
    hide Contents, LbaOf, SectorsNeeded, Padded;
    LbaGrows(files, i, n);
    if i < n - 1 {
      LbaGrows(files, i, n - 1);
      ContentsAt(files, n - 1, i);
      EarlierStays(files, n, i);
    } else {
      LastContents(files, n);
    }
  }

  lemma EarlierStays(files: seq<File>, n: nat, i: nat)
    requires i < n - 1 < |files| && LbaOf(files, i) + SectorsNeeded(|files[i].data|) <= LbaOf(files, n - 1)
    requires var (lba, k) := (LbaOf(files, i), SectorsNeeded(|files[i].data|));
             Contents(files, n - 1)[SECTOR * (lba - 1)..SECTOR * (lba - 1 + k)] == Padded(files[i].data)
    ensures LbaOf(files, i) + SectorsNeeded(|files[i].data|) <= LbaOf(files, n)
    ensures var (lba, k) := (LbaOf(files, i), SectorsNeeded(|files[i].data|));
            Contents(files, n)[SECTOR * (lba - 1)..SECTOR * (lba - 1 + k)] == Padded(files[i].data)
  {
    hide SectorsNeeded, Padded;
    var a, b := SECTOR * (LbaOf(files, i) - 1), SECTOR * (LbaOf(files, i) - 1 + SectorsNeeded(|files[i].data|));
    SliceKept(Contents(files, n - 1), Padded(files[n - 1].data), a, b, Padded(files[i].data));
  }

  lemma LastContents(files: seq<File>, n: nat)
    requires 1 <= n <= |files|
    ensures var (lba, k) := (LbaOf(files, n - 1), SectorsNeeded(|files[n - 1].data|));
            && LbaOf(files, n) == lba + k
            && Contents(files, n)[SECTOR * (lba - 1)..SECTOR * (lba - 1 + k)] == Padded(files[n - 1].data)
  {
    hide SectorsNeeded, Padded;
    var head, last := Contents(files, n - 1), Padded(files[n - 1].data);
    SliceOfSuffix(head + last, head, last, |head|, |head| + |last|);
  }

  lemma EntryInSuperblock(files: seq<File>, i: nat)
    requires Packable(files) && i < |files|
    ensures LbaOf(files, i) < WORD_LIMIT
    ensures Superblock(files)[EntryAt(i)..EntryAt(i) + ENTRY_BYTES] == EntryBytes(files[i], LbaOf(files, i))
  {
    EntriesAt(files, |files|, i);
    EntrySlice(files, i);
  }

  lemma EntrySlice(files: seq<File>, i: nat)
    requires Packable(files) && i < |files|
    ensures Superblock(files)[EntryAt(i)..EntryAt(i) + ENTRY_BYTES]
         == Entries(files, |files|)[ENTRY_BYTES * i..ENTRY_BYTES * i + ENTRY_BYTES]
  {
    SliceInside(Superblock(files), Le(KFS_MAGIC) + Le(|files|), Entries(files, |files|),
                Zeros(SECTOR - HEADER_BYTES - ENTRY_BYTES * |files|),
                EntryAt(i), EntryAt(i) + ENTRY_BYTES, ENTRY_BYTES * i, ENTRY_BYTES * i + ENTRY_BYTES);
  }

  /** An entry decodes to what was packed into it. */
  lemma EntryDecodes(sb: seq<byte>, i: nat, f: File, lba: uint32)
    requires |sb| == SECTOR && i < KFS_MAX_FILES && |f.data| < WORD_LIMIT
    requires sb[EntryAt(i)..EntryAt(i) + ENTRY_BYTES] == EntryBytes(f, lba)
    requires 0 !in f.name && |f.name| < NAME_BYTES
    ensures Named(sb, i, f.name) && 0 in NameField(sb, i) && StartLba(sb, i) == lba && Size(sb, i) == |f.data|
  {
    var e := EntryAt(i);
    ThreeFields(EntryBytes(f, lba), NameBytes(f.name), Le(lba), Le(|f.data|), 32, 36);
    SliceOfSlice(sb, e, e + ENTRY_BYTES, 0, 32, e, e + 32);
    SliceOfSlice(sb, e, e + ENTRY_BYTES, 32, 36, e + 32, e + 36);
    SliceOfSlice(sb, e, e + ENTRY_BYTES, 36, 40, e + 36, e + 40);
    LeReadsBack(lba, sb, e + 32);
    LeReadsBack(|f.data|, sb, e + 36);
    PaddedNameReads(f.name);
  }

  lemma PaddedNameReads(name: seq<byte>)
    requires 0 !in name && |name| < NAME_BYTES
    ensures CStr(NameBytes(name)) == name && 0 in NameBytes(name)
  {
    var rest := Zeros(NAME_BYTES - |name| - 1);
    assert NameBytes(name) == name + [0] + rest;
    assert NameBytes(name)[|name|] == 0;
    CStrOf(name, rest);
  }

  /** Files that the file system can find by name and read in one transfer. */
  ghost predicate Ordinary(files: seq<File>) {
    && |files| <= KFS_MAX_FILES
    && forall f :: f in files ==> 0 !in f.name && |f.name| < NAME_BYTES && |f.data| <= MAX_SIZE
  }

  lemma EntriesDecode(files: seq<File>, i: nat)
    requires Packable(files) && Ordinary(files) && i < |files|
    ensures var sb := Superblock(files);
            && Named(sb, i, files[i].name) && 0 in NameField(sb, i)
            && StartLba(sb, i) == LbaOf(files, i) && Size(sb, i) == |files[i].data|
  {
    EntryInSuperblock(files, i);
    assert files[i] in files;
    EntryDecodes(Superblock(files), i, files[i], LbaOf(files, i));
  }

  lemma {:induction false} SectorsBeforeIsLba(sb: seq<byte>, files: seq<File>, i: nat)
    requires |sb| == SECTOR && i <= |files| <= KFS_MAX_FILES
    requires forall j: nat :: j < i ==> Size(sb, j) == |files[j].data| <= MAX_SIZE
    ensures 1 + SectorsBefore(sb, i) == LbaOf(files, i)
  {
    if i > 0 {
      SectorsBeforeIsLba(sb, files, i - 1);
    }
  }

  lemma SuperblockHeader(files: seq<File>)
    requires Packable(files)
    ensures Magic(Superblock(files)) == KFS_MAGIC && Count(Superblock(files)) == |files|
  {
    var sb := Superblock(files);
    var rest := Entries(files, |files|) + Zeros(SECTOR - HEADER_BYTES - ENTRY_BYTES * |files|);
    assert sb == [] + Le(KFS_MAGIC) + (Le(|files|) + rest);
    SliceInside(sb, [], Le(KFS_MAGIC), Le(|files|) + rest, 0, 4, 0, 4);
    assert sb == Le(KFS_MAGIC) + Le(|files|) + rest;
    SliceInside(sb, Le(KFS_MAGIC), Le(|files|), rest, 4, 8, 0, 4);
    LeReadsBack(KFS_MAGIC, sb, 0);
    LeReadsBack(|files|, sb, 4);
  }

  lemma SuperblockIsLaidOut(files: seq<File>)
    requires Packable(files) && Ordinary(files)
    ensures LaidOut(Superblock(files)) && Count(Superblock(files)) == |files|
  {
    SuperblockHeader(files);
    var sb := Superblock(files);
    forall i: nat | i < |files|
      ensures StartLba(sb, i) == LbaOf(files, i) && Size(sb, i) == |files[i].data| && 0 in NameField(sb, i)
    {
      EntriesDecode(files, i);
    }
    forall i: nat | i < |files| ensures StartLba(sb, i) == 1 + SectorsBefore(sb, i) {
      assert forall j: nat :: j < i ==> files[j] in files;
      SectorsBeforeIsLba(sb, files, i);
    }
  }

  /** The sectors of file i on the image are its bytes, padded with zeros to a whole sector. */
  lemma ImageExtent(files: seq<File>, i: nat)
    requires Packable(files) && i < |files|
    ensures SECTOR * (LbaOf(files, i) + SectorsNeeded(|files[i].data|)) <= |Image(files)|
    ensures Extent(Image(files), LbaOf(files, i), SectorsNeeded(|files[i].data|)) == Padded(files[i].data)
  {
    ContentsExtent(Superblock(files), files, i);
  }

  lemma ContentsExtent(head: seq<byte>, files: seq<File>, i: nat)
    requires |head| == SECTOR && i < |files|
    ensures var (image, lba, n) := (head + Contents(files, |files|), LbaOf(files, i), SectorsNeeded(|files[i].data|));
            SECTOR * (lba + n) <= |image| && Extent(image, lba, n) == Padded(files[i].data)
  {
    var body, lba, data := Contents(files, |files|), LbaOf(files, i), files[i].data;
    ContentsAt(files, |files|, i);
    PaddedExtent(head, body, lba, data);
  }

  lemma PaddedExtent(head: seq<byte>, body: seq<byte>, lba: nat, data: seq<byte>)
    requires |head| == SECTOR && 1 <= lba && SECTOR * (lba - 1 + SectorsNeeded(|data|)) <= |body|
    requires body[SECTOR * (lba - 1)..SECTOR * (lba - 1 + SectorsNeeded(|data|))] == Padded(data)
    ensures Extent(head + body, lba, SectorsNeeded(|data|)) == Padded(data)
  {
    ExtentAfterFirst(head + body, head, body, lba, SectorsNeeded(|data|));
  }

  lemma ExtentAfterFirst(image: seq<byte>, head: seq<byte>, body: seq<byte>, lba: nat, n: nat)
    requires image == head + body && |head| == SECTOR && 1 <= lba && SECTOR * (lba - 1 + n) <= |body|
    ensures SECTOR * (lba + n) <= |image|
    ensures Extent(image, lba, n) == body[SECTOR * (lba - 1)..SECTOR * (lba - 1 + n)]
  {
    SliceOfTail(image, head, body, SECTOR * lba, SECTOR * (lba + n), SECTOR * (lba - 1), SECTOR * (lba - 1 + n));
  }

  lemma ImageStores(files: seq<File>, i: nat)
    requires Packable(files) && Ordinary(files) && i < |files|
    ensures StoresAt(Image(files), Superblock(files), i, files[i])
  {
    var image, f, lba := Image(files), files[i], LbaOf(files, i);
    EntriesDecode(files, i);
    ImageExtent(files, i);
    assert f in files;
    StoredAsPadded(image, Superblock(files), i, f);
  }

  lemma StoredAsPadded(image: seq<byte>, sb: seq<byte>, i: nat, f: File)
    requires |sb| == SECTOR && i < KFS_MAX_FILES && |f.data| <= MAX_SIZE
    requires Named(sb, i, f.name) && Size(sb, i) == |f.data|
    requires SECTOR * (StartLba(sb, i) + SectorsNeeded(|f.data|)) <= |image|
    requires Extent(image, StartLba(sb, i), SectorsNeeded(|f.data|)) == Padded(f.data)
    ensures StoresAt(image, sb, i, f)
  {
    var a, n := SECTOR * StartLba(sb, i), |f.data|;
    assert image[a..a + n] == Extent(image, StartLba(sb, i), SectorsNeeded(n))[..n] == f.data;
  }

  /** The builder and the kernel agree: the image holds, in the kernel's own reading of its
      sector 0, exactly the files that were packed. */
  lemma ImageHoldsFiles(files: seq<File>)
    requires Packable(files) && Ordinary(files)
    ensures Holds(Image(files), Superblock(files), files)
  {
    SuperblockIsLaidOut(files);
    forall i: nat | i < |files| ensures StoresAt(Image(files), Superblock(files), i, files[i]) {
      ImageStores(files, i);
    }
  }

  /** The superblock of an image has zeros where no file is described. */
  lemma UnusedIsZero(files: seq<File>, k: nat)
    requires Packable(files) && EntryAt(|files|) <= k < SECTOR
    ensures Superblock(files)[k] == 0
  {
    var head := Le(KFS_MAGIC) + Le(|files|) + Entries(files, |files|);
    assert |head| == EntryAt(|files|);
  }

  /** A name field holds the first 32 bytes of the name, filled up with zeros. */
  lemma NameIsFilledUp(name: seq<byte>, k: nat)
    requires k < NAME_BYTES
    ensures NameBytes(name)[k] == if k < |name| then name[k] else 0
  {
  }
}
