/** The shell's commands that work on files: cat, and what it makes of a file that touch has made. */
module ShellCommands {
  import opened Options
  import opened Words
  import opened Disk
  import opened KfsLayout
  import opened Kfs
  import opened KfsContents
  import opened KfsRuns

  const MAX_CAT_SIZE: nat := 8192

  datatype CatResult = NotFound | TooLarge | IoError | Printed(bytes: seq<byte>)

  /** What cat does with the file of entry i. */
  ghost function CatOf(image: seq<byte>, sb: seq<byte>, i: nat): CatResult
    requires |sb| == SECTOR && i < KFS_MAX_FILES
  {
    var lba, n := StartLba(sb, i), Transferred(sb, i);
    if Size(sb, i) > MAX_CAT_SIZE then TooLarge
    else if !Transfers(image, lba, n) then IoError
    else
      CatFits(Size(sb, i));
      Printed(Delivered(image, lba, n)[..Size(sb, i)])
  }

  /** Whole sectors of a file that cat accepts fit in its buffer, and go in one transfer. */
  lemma CatFits(size: uint32)
    requires size <= MAX_CAT_SIZE
    ensures SectorsFor(size) % 256 == SectorsFor(size) && size <= SECTOR * SectorsFor(size) <= MAX_CAT_SIZE
  {
  }

  /** cat: find the file, check its size, read it by its name into a buffer of 8192 bytes, and print
      as many of them as it is long. */
  method Cat(volume: Volume, name: seq<byte>, buf: array<byte>) returns (r: CatResult)
    requires volume.Valid() && volume.Terminated() && 0 !in name
    requires buf.Length == MAX_CAT_SIZE && buf != volume.drive.data && buf != volume.sb
    modifies buf
    ensures FirstNamed(volume.sb[..], name, None) ==> r == NotFound
    ensures forall k: nat :: FirstNamed(volume.sb[..], name, Some(k)) ==>
              r == CatOf(volume.drive.data[..], volume.sb[..], k)
  {
    var k := volume.Find(name);
    if k.None? {
      return NotFound;
    }
    ghost var image, sb, i := volume.drive.data[..], volume.sb[..], k.value;
    assert forall j: nat :: FirstNamed(sb, name, Some(j)) ==> j == i;
    var size := Size(volume.sb[..], k.value);
    if size > MAX_CAT_SIZE {
      return TooLarge;
    }
    CatFits(size);
    ghost var before := buf[..];
    var status := volume.ReadFile(name, buf);
    assert volume.sb[..] == sb && volume.drive.data[..] == image;
    assert FileRead(image, sb, i, before, buf[..], status);
    if status < 0 {
      return IoError;
    }
    FrontOfBuffer(before, Delivered(image, StartLba(sb, i), Transferred(sb, i)), size);
    r := Printed(buf[..size]);
  }

  lemma FrontOfBuffer(before: seq<byte>, t: seq<byte>, n: nat)
    requires n <= |t| <= |before|
    ensures Overlay(before, 0, t)[..n] == t[..n]
  {
  }

  /** A stored file under a new name is printed exactly if it is not empty and has at most 8192
      bytes; an empty one, which needs a transfer of no sectors, gives an I/O error. */
  lemma CatPrintsStored(v: Store, es: seq<Entry>, i: nat)
    requires Tracked(v, es) && i < |es| && es[i].Stored?
    requires forall j: nat :: j < i ==> es[j].Name() != es[i].Name()
    ensures FirstNamed(v.sb, es[i].Name(), Some(i))
    ensures var data := es[i].file.data;
            CatOf(v.image, v.sb, i) ==
            if |data| > 8192 then TooLarge else if data == [] then IoError else Printed(data)
  {
    hide StoresAt, Named, CatOf;
    StoredIsFound(v, es, i);
    SizeOfStored(v.image, v.sb, i, es[i].file);
    if 1 <= |es[i].file.data| <= MAX_CAT_SIZE {
      FewSectorsBefore(v.sb);
      SectorsBeforeGrows(v.sb, i, Count(v.sb));
      CatOfStored(v, i, es[i].file);
    } else {
      CatOfOthers(v.image, v.sb, i);
    }
  }

  lemma CatOfOthers(image: seq<byte>, sb: seq<byte>, i: nat)
    requires |sb| == SECTOR && i < KFS_MAX_FILES
    ensures Size(sb, i) > 8192 ==> CatOf(image, sb, i) == TooLarge
    ensures Size(sb, i) == 0 ==> CatOf(image, sb, i) == IoError
  {
    hide Delivered, Size;
  }

  lemma CatOfStored(v: Store, i: nat, f: File)
    requires |v.sb| == SECTOR && i < KFS_MAX_FILES && StoresAt(v.image, v.sb, i, f) && StartLba(v.sb, i) < LBA_LIMIT
    requires 1 <= |f.data| == Size(v.sb, i) <= MAX_CAT_SIZE
    ensures CatOf(v.image, v.sb, i) == Printed(f.data)
  {
    hide StoresAt, Delivered;
    CatFits(Size(v.sb, i));
    StoredDelivers(v, i, f);
  }

  /** touch writes an empty file, and cat cannot show it. */
  lemma TouchedFileGivesError(v: Store, es: seq<Entry>, name: seq<byte>, status: int, v': Store)
    requires Tracked(v, es) && |es| < KFS_MAX_FILES && Step(v, Write(name, [], 0, status), v')
    requires SECTOR * NextFree(v.sb) <= |v.image| && forall j: nat :: j < |es| ==> es[j].Name() != name
    ensures LaidOut(v'.sb) && FirstNamed(v'.sb, name, Some(|es|)) && CatOf(v'.image, v'.sb, |es|) == IoError
  {
    hide Step, EntriesAfter, CatOf, StoresAt, Named, FirstNamed;
    var e := Write(name, [], 0, status);
    StepTracked(v, es, e, v');
    TouchAddsEmpty(v, es, e);
    CatPrintsStored(v', es + [Stored(File(name, []))], |es|);
  }

  lemma TouchAddsEmpty(v: Store, es: seq<Entry>, e: Event)
    requires LaidOut(v.sb) && |es| < KFS_MAX_FILES && SECTOR * NextFree(v.sb) <= |v.image|
    requires e.Write? && e.data == [] && e.size == 0
    ensures EntriesAfter(v, es, e) == es + [Stored(File(e.name, []))]
  {
    assert e.data[..0] == [];
  }
}
