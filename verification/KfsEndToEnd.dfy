/** From the image builder on the host to a file read in the kernel. */
module KfsEndToEnd {
  import opened Options
  import opened Words
  import opened Disk
  import opened KfsLayout
  import opened Kfs
  import opened KfsContents
  import opened ImageBuilder
  import opened ByteRange

  lemma OrdinaryIsPackable(files: seq<File>)
    requires Ordinary(files)
    ensures Packable(files)
  {
    forall i: nat | i < |files| ensures |files[i].data| < WORD_LIMIT {
      assert files[i] in files;
    }
  }

  /** An image can be mounted, and every packed file is found by its name, at its own sectors,
      however large it or any other file is. */
  lemma PackedFileIsFound(files: seq<File>, i: nat)
    requires Packable(files) && Ordinary(files) && i < |files|
    requires forall j: nat :: j < i ==> files[j].name != files[i].name
    ensures var (image, sb, n) := (Image(files), Superblock(files), |files[i].data|);
            && image[..SECTOR] == sb && LaidOut(sb) && FirstNamed(sb, files[i].name, Some(i))
            && Size(sb, i) == n && SectorsFor(n) == SectorsNeeded(n)
            && SECTOR * (StartLba(sb, i) + SectorsNeeded(n)) <= |image|
            && Extent(image, StartLba(sb, i), SectorsNeeded(n)) == Padded(files[i].data)
  {
    hide StoresAt, Named, Image, Superblock, Padded, SectorsBefore, Extent;
    ImageHoldsFiles(files);
    HeldFileIsFound(Image(files), Superblock(files), files, i);
    EntriesDecode(files, i);
    ImageExtent(files, i);
    assert files[i] in files;
  }

  /** Those of 1 to 255 sectors can be read: the sectors transferred are the file's bytes padded
      with zeros. */
  lemma PackedFileIsReadable(files: seq<File>, i: nat)
    requires Packable(files) && Ordinary(files) && i < |files| && 1 <= |files[i].data| <= MAX_FILE_BYTES
    requires forall j: nat :: j < i ==> files[j].name != files[i].name
    ensures var (image, sb, n) := (Image(files), Superblock(files), |files[i].data|);
            && image[..SECTOR] == sb && LaidOut(sb)
            && FirstNamed(sb, files[i].name, Some(i)) && Readable(image, sb, i)
            && SectorsFor(Size(sb, i)) == SectorsNeeded(n)
            && Extent(image, StartLba(sb, i), SectorsNeeded(n)) == Padded(files[i].data)
  {
    PackedFileIsFound(files, i);
    ImageHoldsFiles(files);
    HeldFileIsRead(Image(files), Superblock(files), files, i);
  }

  /** Build an image, put it on a drive, mount it, read one of the files. */
  method PackMountRead(files: seq<File>, i: nat, buf: array<byte>) returns (status: int)
    requires Ordinary(files) && i < |files| && 1 <= |files[i].data| <= MAX_FILE_BYTES
    requires buf.Length >= SECTOR * SectorsNeeded(|files[i].data|)
    requires forall j: nat :: j < i ==> files[j].name != files[i].name
    modifies buf
    ensures status == SectorsNeeded(|files[i].data|)
    ensures buf[..] == Overlay(old(buf[..]), 0, Padded(files[i].data))
  {
    OrdinaryIsPackable(files);
    PackedFileIsReadable(files, i);
    var f := files[i];
    assert f in files;
    var img := BuildImage(files);
    var drive := new Drive(img);
    var volume := new Volume(drive);
    var ok := volume.Mount();
    status := ReadMounted(volume, files, i, buf);
  }

  method ReadMounted(volume: Volume, files: seq<File>, i: nat, buf: array<byte>) returns (status: int)
    requires volume.Valid() && buf != volume.drive.data && buf != volume.sb
    requires i < |files| && files[i].data != [] && 0 !in files[i].name && |files[i].data| <= MAX_FILE_BYTES
    requires buf.Length >= SECTOR * SectorsNeeded(|files[i].data|)
    requires LaidOut(volume.sb[..]) && FirstNamed(volume.sb[..], files[i].name, Some(i))
    requires Readable(volume.drive.data[..], volume.sb[..], i)
    requires SectorsFor(Size(volume.sb[..], i)) == SectorsNeeded(|files[i].data|)
    requires Extent(volume.drive.data[..], StartLba(volume.sb[..], i), SectorsNeeded(|files[i].data|))
          == Padded(files[i].data)
    modifies buf
    ensures status == SectorsNeeded(|files[i].data|)
    ensures buf[..] == Overlay(old(buf[..]), 0, Padded(files[i].data))
  {
    assert forall k: nat :: FirstNamed(volume.sb[..], files[i].name, Some(k)) ==> k == i;
    ghost var before := buf[..];
    status := volume.ReadFile(files[i].name, buf);
    ReadableIsRead(volume.drive.data[..], volume.sb[..], i, before, buf[..], status);
  }

  /** Build an image, mount it, and read a range of one of the files, of any size, through the
      byte-range reader: exactly those bytes of the file arrive. */
  method PackMountReadRange(files: seq<File>, i: nat, offset: uint32, size: uint32, buf: array<byte>)
    returns (status: int)
    requires Ordinary(files) && i < |files| && offset < |files[i].data|
    requires CopyLength(|files[i].data|, offset, size) == RangeLength(|files[i].data|, offset, size)
    requires buf.Length >= RangeLength(|files[i].data|, offset, size)
    requires forall j: nat :: j < i ==> files[j].name != files[i].name
    modifies buf
    ensures var n := RangeLength(|files[i].data|, offset, size);
            status == 0 && buf[..] == Overlay(old(buf[..]), 0, files[i].data[offset..offset + n])
  {
    OrdinaryIsPackable(files);
    PackedFileIsFound(files, i);
    ImageHoldsFiles(files);
    HeldRangeIsRead(Image(files), Superblock(files), files, i, offset, size);
    assert files[i] in files;
    var img := BuildImage(files);
    var drive := new Drive(img);
    var volume := new Volume(drive);
    var ok := volume.Mount();
    status := ReadNamedRange(volume, files[i].name, i, offset, size, buf);
  }

  /** Find a file by its name and read a range of it. */
  method ReadNamedRange(volume: Volume, name: seq<byte>, ghost i: nat, offset: uint32, size: uint32, buf: array<byte>)
    returns (status: int)
    requires volume.Valid() && volume.Terminated() && 0 !in name && FirstNamed(volume.sb[..], name, Some(i))
    requires i < KFS_MAX_FILES && buf != volume.drive.data && buf != volume.sb
    requires CopyLength(Size(volume.sb[..], i), offset, size) <= buf.Length
    modifies buf
    ensures var r := RangeRead(volume.drive.data[..], StartLba(volume.sb[..], i), Size(volume.sb[..], i), offset, size);
            status == (if r.1 then 0 else -1) && buf[..] == Overlay(old(buf[..]), 0, r.0)
  {
    var k := volume.Find(name);
    assert k == Some(i);
    var lba, fileSize := StartLba(volume.sb[..], k.value), Size(volume.sb[..], k.value);
    ghost var image, sb := volume.drive.data[..], volume.sb[..];
    status := ReadRange(volume.drive, lba, fileSize, offset, buf, 0, size);
    assert volume.sb[..] == sb && volume.drive.data[..] == image;
  }
}
