/** Whole runs of formatting, writing and remounting a volume, and what a write that reports
    success is worth. */
module KfsRuns {
  import opened Options
  import opened Words
  import opened Disk
  import opened KfsLayout
  import opened Kfs
  import opened KfsContents

  /** A drive and the superblock in memory. */
  datatype Store = Store(image: seq<byte>, sb: seq<byte>)

  /** A call of kfs_mkfs, kfs_write or kfs_mount, with what it returned. */
  datatype Event = Format(status: int) | Write(name: seq<byte>, data: seq<byte>, size: uint32, status: int) | Remount

  /** What a kfs_write asks for: `data` can be read as far as the transfer goes. */
  ghost predicate Asked(name: seq<byte>, data: seq<byte>, size: uint32) {
    0 !in name && |name| < NAME_BYTES && size <= |data| && SECTOR * (SectorsFor(size) % 256) <= |data|
  }

  /** What each call does, as the methods of a volume promise it. */
  ghost predicate Step(v: Store, e: Event, v': Store)
    requires |v.sb| == SECTOR
  {
    match e
    case Format(status) =>
      LaidOut(v'.sb) && Count(v'.sb) == 0 && SuperblockWritten(v.image, v'.sb, v'.image, status)
    case Write(name, data, size, status) =>
      && Asked(name, data, size)
      && if Count(v.sb) >= KFS_MAX_FILES then status == ERR_FAILED && v' == v
         else
           && IsAppended(v.sb, name, size, v'.sb)
           && FileWritten(v.image, NextFree(v.sb), data, size, v'.sb, v'.image, status)
    case Remount => SECTOR <= |v.image| && v' == Store(v.image, v.image[..SECTOR])
  }

  ghost function Now(volume: Volume): Store
    reads volume, volume.drive, volume.drive.data, volume.sb
  {
    Store(volume.drive.data[..], volume.sb[..])
  }

  /** The methods of a volume do these steps. */
  method DoFormat(volume: Volume) returns (status: int)
    requires volume.Valid()
    modifies volume.sb, volume.drive.data
    ensures Step(old(Now(volume)), Format(status), Now(volume))
  {
    status := volume.Mkfs();
  }

  method DoWrite(volume: Volume, name: seq<byte>, data: seq<byte>, size: uint32) returns (status: int)
    requires volume.Valid() && Asked(name, data, size)
    modifies volume.sb, volume.drive.data
    ensures Step(old(Now(volume)), Write(name, data, size, status), Now(volume))
  {
    status := volume.WriteFile(name, data, size);
  }

  /** Mounting succeeds on every volume that is tracked. */
  method DoRemount(volume: Volume, ghost es: seq<Entry>) returns (ok: bool)
    requires volume.Valid() && Tracked(Now(volume), es)
    modifies volume.sb
    ensures ok && Step(old(Now(volume)), Remount, Now(volume))
  {
    ok := volume.Mount();
  }

  /** An entry of the table: a file whose bytes are on the drive, or one that could not be stored. */
  datatype Entry = Stored(file: File) | Lost(lostName: seq<byte>) {
    function Name(): seq<byte> {
      if Stored? then file.name else lostName
    }
  }

  /** The superblock lists these entries, and the stored files among them are on the drive. */
  ghost predicate Tracked(v: Store, es: seq<Entry>) {
    && LaidOut(v.sb) && Count(v.sb) == |es| && SECTOR <= |v.image| && v.image[..SECTOR] == v.sb
    && (forall i: nat :: i < |es| ==> Named(v.sb, i, es[i].Name()))
    && (forall i: nat :: i < |es| && es[i].Stored? ==> StoresAt(v.image, v.sb, i, es[i].file))
  }

  /** A file of `size` bytes fits behind the others, in one transfer. */
  ghost predicate Fits(v: Store, size: uint32)
    requires LaidOut(v.sb)
  {
    size <= MAX_FILE_BYTES && SECTOR * (NextFree(v.sb) + SectorsFor(size)) <= |v.image|
  }

  ghost function EntriesAfter(v: Store, es: seq<Entry>, e: Event): seq<Entry>
    requires LaidOut(v.sb)
  {
    match e
    case Format(_) => []
    case Write(name, data, size, _) =>
      if |es| >= KFS_MAX_FILES then es
      else es + [if Fits(v, size) && size <= |data| then Stored(File(name, data[..size])) else Lost(name)]
    case Remount => es
  }

  lemma FewSectorsBefore(sb: seq<byte>)
    requires LaidOut(sb)
    ensures 1 <= NextFree(sb) < LBA_LIMIT
  {
  }

  /** A write leaves everything between the superblock and its own first sector alone. */
  lemma WriteLeavesBelow(image: seq<byte>, lba: nat, data: seq<byte>, size: uint32, sb: seq<byte>, after: seq<byte>,
                         status: int, top: nat)
    requires |sb| == SECTOR <= top <= |image| && 1 <= lba < LBA_LIMIT && top <= SECTOR * lba
    requires SECTOR * (SectorsFor(size) % 256) <= |data| && FileWritten(image, lba, data, size, sb, after, status)
    ensures |after| == |image| && after[..SECTOR] == sb && after[SECTOR..top] == image[SECTOR..top]
  {
    hide SectorsFor;
    var mid := Written(image, lba, SectorsFor(size) % 256, data);
    assert lba % LBA_LIMIT == lba;
    OverlayThere(mid, 0, sb);
    OverlayElsewhere(mid, 0, sb, SECTOR, top);
    WrittenAbove(image, lba, SectorsFor(size) % 256, data, top);
  }

  lemma WrittenAbove(image: seq<byte>, lba: nat, n: nat, data: seq<byte>, top: nat)
    requires SECTOR <= top <= |image| && top <= SECTOR * lba && lba < LBA_LIMIT && SECTOR * n <= |data|
    ensures Written(image, lba, n, data)[SECTOR..top] == image[SECTOR..top]
  {
    var k := Present(image, lba, n);
    assert lba % LBA_LIMIT == lba;
    if k > 0 {
      OverlayElsewhere(image, SECTOR * lba, data[..SECTOR * k], SECTOR, top);
    }
  }

  /** The stored files stay stored when one more entry is added, wherever its data goes. */
  lemma StoredFileStays(v: Store, i: nat, f: File, v': Store)
    requires LaidOut(v.sb) && i < Count(v.sb) && |v'.sb| == SECTOR <= |v.image| == |v'.image|
    requires StoresAt(v.image, v.sb, i, f) && SameEntry(v'.sb, v.sb, i)
    requires var top := Below(v); SECTOR <= top && v'.image[SECTOR..top] == v.image[SECTOR..top]
    ensures StoresAt(v'.image, v'.sb, i, f)
  {
    hide SameEntry, StoresAt;
    SectorsBeforeGrows(v.sb, i, Count(v.sb));
    StoredEnds(v.image, v.sb, i, f);
    FileStays(v.image, v.sb, i, f, v'.image, v'.sb, Below(v));
  }

  lemma StoredEnds(image: seq<byte>, sb: seq<byte>, i: nat, f: File)
    requires |sb| == SECTOR && i < KFS_MAX_FILES && StoresAt(image, sb, i, f)
    ensures SECTOR * (StartLba(sb, i) + SectorsFor(Size(sb, i))) <= |image|
  {
  }

  /** Where the first free sector starts, or the drive ends. */
  ghost function Below(v: Store): nat
    requires LaidOut(v.sb)
  {
    if SECTOR * NextFree(v.sb) <= |v.image| then SECTOR * NextFree(v.sb) else |v.image|
  }

  lemma WriteTracked(v: Store, es: seq<Entry>, e: Event, v': Store)
    requires Tracked(v, es) && e.Write? && |es| < KFS_MAX_FILES && Step(v, e, v')
    ensures Tracked(v', EntriesAfter(v, es, e))
  {
    hide StoresAt, Named, FileWritten, HasRoom, SectorsFor;
    var n, es' := |es|, EntriesAfter(v, es, e);
    FewSectorsBefore(v.sb);
    AppendedMeans(v.sb, e.name, e.size, v'.sb);
    WriteLeavesBelow(v.image, NextFree(v.sb), e.data, e.size, v'.sb, v'.image, e.status, Below(v));
    forall i: nat | i < n
      ensures Named(v'.sb, i, es'[i].Name())
      ensures es'[i].Stored? ==> StoresAt(v'.image, v'.sb, i, es'[i].file)
    {
      NameStays(v.sb, v'.sb, i);
      if es[i].Stored? {
        StoredFileStays(v, i, es[i].file, v');
      }
    }
    if Fits(v, e.size) {
      FittingIsStored(v, e, v');
    }
  }

  lemma NameStays(sb: seq<byte>, sb': seq<byte>, i: nat)
    requires |sb| == |sb'| == SECTOR && i < KFS_MAX_FILES && SameEntry(sb', sb, i)
    ensures forall name :: Named(sb, i, name) ==> Named(sb', i, name)
  {
  }

  lemma FitsHasRoom(v: Store, size: uint32)
    requires LaidOut(v.sb) && SECTOR <= |v.image| && Fits(v, size)
    ensures HasRoom(v.image, NextFree(v.sb), size) && size <= MAX_FILE_BYTES
    ensures size <= SECTOR * SectorsFor(size) && SECTOR * (NextFree(v.sb) + SectorsFor(size)) <= |v.image|
  {
    FewSectorsBefore(v.sb);
  }

  lemma FittingIsStored(v: Store, e: Event, v': Store)
    requires LaidOut(v.sb) && SECTOR <= |v.image| && e.Write? && Count(v.sb) < KFS_MAX_FILES && Fits(v, e.size)
    requires Step(v, e, v') && AppendedEntryOf(v.sb, e.name, e.size, v'.sb)
    ensures StoresAt(v'.image, v'.sb, Count(v.sb), File(e.name, e.data[..e.size]))
  {
    hide StoresAt, Named, FileWritten, IsStored, HasRoom, Fits;
    FewSectorsBefore(v.sb);
    FitsHasRoom(v, e.size);
    RoomStores(v.image, NextFree(v.sb), e.data, e.size, v'.sb, v'.image, e.status);
    var t := e.data[..SECTOR * SectorsFor(e.size)];
    assert t[..e.size] == e.data[..e.size];
    NewFileIsStored(v.image, v.sb, File(e.name, e.data[..e.size]), t, v'.image, v'.sb);
  }

  /** Each call keeps track of every file. */
  lemma StepTracked(v: Store, es: seq<Entry>, e: Event, v': Store)
    requires Tracked(v, es) && Step(v, e, v')
    ensures Tracked(v', EntriesAfter(v, es, e))
  {
    match e
    case Format(_) => OverlayThere(v.image, 0, v'.sb);
    case Write(_, _, _, _) =>
      if |es| < KFS_MAX_FILES {
        WriteTracked(v, es, e, v');
      }
    case Remount =>
  }

  /** A run: the stores before, between and after the calls. */
  ghost predicate Run(vs: seq<Store>, events: seq<Event>) {
    && |vs| == |events| + 1 && (forall k :: 0 <= k < |vs| ==> |vs[k].sb| == SECTOR)
    && (forall k :: 0 <= k < |events| ==> Step(vs[k], events[k], vs[k + 1]))
  }

  /** The entries after k calls. */
  ghost function EntriesAt(vs: seq<Store>, events: seq<Event>, es: seq<Entry>, k: nat): (r: seq<Entry>)
    requires Run(vs, events) && Tracked(vs[0], es) && k <= |events|
    ensures Tracked(vs[k], r)
  {
    if k == 0 then es
    else
      assert Step(vs[k - 1], events[k - 1], vs[k - 1 + 1]);
      StepTracked(vs[k - 1], EntriesAt(vs, events, es, k - 1), events[k - 1], vs[k]);
      EntriesAfter(vs[k - 1], EntriesAt(vs, events, es, k - 1), events[k - 1])
  }

  lemma AfterExtends(v: Store, es: seq<Entry>, e: Event)
    requires LaidOut(v.sb) && !e.Format?
    ensures es <= EntriesAfter(v, es, e)
  {
  }

  lemma NextEntries(vs: seq<Store>, events: seq<Event>, es: seq<Entry>, k: nat)
    requires Run(vs, events) && Tracked(vs[0], es) && k < |events|
    ensures LaidOut(vs[k].sb) && Count(vs[k].sb) == |EntriesAt(vs, events, es, k)|
    ensures Step(vs[k], events[k], vs[k + 1])
    ensures EntriesAt(vs, events, es, k + 1) == EntriesAfter(vs[k], EntriesAt(vs, events, es, k), events[k])
  {
    assert Tracked(vs[k], EntriesAt(vs, events, es, k));
  }

  /** Until the volume is formatted again, an entry stays what it is: whatever is written, however
      often writes fail for lack of room, and however often the volume is remounted. */
  lemma {:induction false} EntriesStay(vs: seq<Store>, events: seq<Event>, es: seq<Entry>, k: nat, m: nat)
    requires Run(vs, events) && Tracked(vs[0], es) && k <= m <= |events|
    requires forall j :: k <= j < m ==> !events[j].Format?
    ensures EntriesAt(vs, events, es, k) <= EntriesAt(vs, events, es, m)
  {
    hide EntriesAt, Step, Tracked;
    if k < m {
      EntriesStay(vs, events, es, k, m - 1);
      EntryStays(vs, events, es, m - 1);
      PrefixOfPrefix(EntriesAt(vs, events, es, k), EntriesAt(vs, events, es, m - 1), EntriesAt(vs, events, es, m));
    }
  }

  lemma EntryStays(vs: seq<Store>, events: seq<Event>, es: seq<Entry>, k: nat)
    requires Run(vs, events) && Tracked(vs[0], es) && k < |events| && !events[k].Format?
    ensures EntriesAt(vs, events, es, k) <= EntriesAt(vs, events, es, k + 1)
  {
    hide EntriesAt, EntriesAfter, Step, Tracked;
    NextEntries(vs, events, es, k);
    AfterExtends(vs[k], EntriesAt(vs, events, es, k), events[k]);
  }

  lemma PrefixOfPrefix(a: seq<Entry>, b: seq<Entry>, c: seq<Entry>)
    requires a <= b <= c
    ensures a <= c
  {
  }

  /** An entry whose name no earlier one has is found. */
  lemma StoredIsFound(v: Store, es: seq<Entry>, i: nat)
    requires Tracked(v, es) && i < |es|
    requires forall j: nat :: j < i ==> es[j].Name() != es[i].Name()
    ensures FirstNamed(v.sb, es[i].Name(), Some(i))
  {
    hide StoresAt, Named;
    forall j: nat | j < i ensures !Named(v.sb, j, es[i].Name()) {
      assert Named(v.sb, j, es[j].Name());
      OneName(v.sb, j, es[j].Name(), es[i].Name());
    }
  }

  lemma OneName(sb: seq<byte>, i: nat, a: seq<byte>, b: seq<byte>)
    requires |sb| == SECTOR && i < KFS_MAX_FILES && Named(sb, i, a) && a != b
    ensures !Named(sb, i, b)
  {
  }

  /** A stored file of 1 to 255 sectors, under a name no earlier entry has, is read back. */
  lemma StoredIsRead(v: Store, es: seq<Entry>, i: nat)
    requires Tracked(v, es) && i < |es| && es[i].Stored? && 1 <= |es[i].file.data| <= MAX_FILE_BYTES
    requires forall j: nat :: j < i ==> es[j].Name() != es[i].Name()
    ensures FirstNamed(v.sb, es[i].file.name, Some(i)) && Readable(v.image, v.sb, i)
    ensures var f := es[i].file;
            Extent(v.image, StartLba(v.sb, i), SectorsFor(Size(v.sb, i)))[..|f.data|] == f.data
  {
    var f := es[i].file;
    assert Named(v.sb, i, f.name) && StoresAt(v.image, v.sb, i, f);
    forall j: nat | j < i ensures !Named(v.sb, j, f.name) {
      assert Named(v.sb, j, es[j].Name());
    }
    FewSectorsBefore(v.sb);
    SectorsBeforeGrows(v.sb, i, Count(v.sb));
    var a, n := SECTOR * StartLba(v.sb, i), |f.data|;
    var extent := Extent(v.image, StartLba(v.sb, i), SectorsFor(n));
    SliceOfSlice(v.image, a, SECTOR * (StartLba(v.sb, i) + SectorsFor(n)), 0, n, a, a + n);
    assert extent[..n] == extent[0..n];
  }

  /** Safety over whole runs: a file that was written with room for it, under a new name, is found
      and read back at any later time before the next formatting. */
  lemma WrittenFilesStayReadable(vs: seq<Store>, events: seq<Event>, es: seq<Entry>, k: nat, m: nat)
    requires Run(vs, events) && Tracked(vs[0], es) && k < m <= |events|
    requires forall j :: k <= j < m ==> !events[j].Format?
    requires events[k].Write? && events[k].size > 0 && Count(vs[k].sb) < KFS_MAX_FILES && LaidOut(vs[k].sb)
    requires Fits(vs[k], events[k].size)
    requires forall j: nat :: j < Count(vs[k].sb) ==> !Named(vs[k].sb, j, events[k].name)
    ensures var (v, i, n) := (vs[m], Count(vs[k].sb), events[k].size);
            && LaidOut(v.sb) && i < Count(v.sb) && n <= |events[k].data|
            && FirstNamed(v.sb, events[k].name, Some(i)) && Readable(v.image, v.sb, i) && Size(v.sb, i) == n
            && Extent(v.image, StartLba(v.sb, i), SectorsFor(n))[..n] == events[k].data[..n]
  {
    hide StoresAt, Named, EntriesAt, Step, Readable;
    var before, now, e := EntriesAt(vs, events, es, k), EntriesAt(vs, events, es, m), events[k];
    var i := Count(vs[k].sb);
    NextEntries(vs, events, es, k);
    AskedFor(vs[k], e, vs[k + 1]);
    EntriesStay(vs, events, es, k + 1, m);
    assert EntriesAt(vs, events, es, k + 1) == before + [Stored(File(e.name, e.data[..e.size]))];
    assert now[i] == EntriesAt(vs, events, es, k + 1)[i];
    NamesStayNew(vs[k], before, now, e.name);
    StoredIsRead(vs[m], now, i);
    SizeOfStored(vs[m].image, vs[m].sb, i, now[i].file);
  }

  lemma AskedFor(v: Store, e: Event, v': Store)
    requires |v.sb| == SECTOR && e.Write? && Step(v, e, v')
    ensures e.size <= |e.data|
  {
  }

  lemma NamesStayNew(v: Store, before: seq<Entry>, now: seq<Entry>, name: seq<byte>)
    requires Tracked(v, before) && before <= now
    requires forall j: nat :: j < Count(v.sb) ==> !Named(v.sb, j, name)
    ensures forall j: nat :: j < |before| ==> now[j].Name() != name
  {
  }

  lemma SizeOfStored(image: seq<byte>, sb: seq<byte>, i: nat, f: File)
    requires |sb| == SECTOR && i < KFS_MAX_FILES && StoresAt(image, sb, i, f)
    ensures Size(sb, i) == |f.data|
  {
  }

  /** kfs_read of entry i then delivers these bytes, all of them. */
  ghost predicate Delivers(v: Store, i: nat, bytes: seq<byte>)
    requires |v.sb| == SECTOR && i < KFS_MAX_FILES
  {
    var lba, n := StartLba(v.sb, i), Transferred(v.sb, i);
    Transfers(v.image, lba, n) && bytes <= Delivered(v.image, lba, n)
  }

  /** What the success of a write is worth: with a sector 0 it is always reported, and it means
      that the file can be read back exactly when the file takes 1 to 255 sectors and they exist. */
  lemma SuccessReadsBack(v: Store, e: Event, v': Store)
    requires LaidOut(v.sb) && Count(v.sb) < KFS_MAX_FILES && e.Write? && Step(v, e, v') && |v'.sb| == SECTOR
    ensures e.status == 1 <==> SECTOR <= |v.image|
    ensures e.size <= |e.data|
    ensures e.status == 1 ==>
              (Delivers(v', Count(v.sb), e.data[..e.size]) <==>
                 1 <= SectorsFor(e.size) <= 255 && SECTOR * (NextFree(v.sb) + SectorsFor(e.size)) <= |v.image|)
  {
    hide IsAppended, StoresAt, Named, FileWritten, Written;
    var i, n := Count(v.sb), SectorsFor(e.size);
    AppendedMeans(v.sb, e.name, e.size, v'.sb);
    FewSectorsBefore(v.sb);
    SameSize(v, e, v');
    if e.status == 1 {
      if Delivers(v', i, e.data[..e.size]) {
        OneTransfer(e.size, StartLba(v'.sb, i), |v.image|);
      }
      if 1 <= n <= 255 && SECTOR * (NextFree(v.sb) + n) <= |v.image| {
        SmallSize(e.size);
        FittingIsStored(v, e, v');
        StoredDelivers(v', i, File(e.name, e.data[..e.size]));
      }
    }
  }

  lemma SameSize(v: Store, e: Event, v': Store)
    requires LaidOut(v.sb) && Count(v.sb) < KFS_MAX_FILES && e.Write? && Step(v, e, v')
    ensures |v'.image| == |v.image| && (e.status == 1 <==> SECTOR <= |v.image|)
  {
  }

  lemma SmallSize(size: uint32)
    requires 1 <= SectorsFor(size) <= 255
    ensures size <= MAX_FILE_BYTES
  {
  }

  lemma OneTransfer(size: uint32, lba: nat, length: nat)
    requires lba < LBA_LIMIT && SectorsFor(size) % 256 != 0 && size <= SECTOR * (SectorsFor(size) % 256)
    ensures 1 <= SectorsFor(size) <= 255 && SectorsFor(size) % 256 == SectorsFor(size) && lba % LBA_LIMIT == lba
  {
  }

  lemma StoredDelivers(v: Store, i: nat, f: File)
    requires |v.sb| == SECTOR && i < KFS_MAX_FILES && StoresAt(v.image, v.sb, i, f)
    requires StartLba(v.sb, i) < LBA_LIMIT && 1 <= SectorsFor(Size(v.sb, i)) <= 255
    ensures Delivers(v, i, f.data)
  {
    var lba, n, a := StartLba(v.sb, i), SectorsFor(Size(v.sb, i)), SECTOR * StartLba(v.sb, i);
    FewSectors(lba, n);
    SliceOfSlice(v.image, a, SECTOR * (lba + n), 0, |f.data|, a, a + |f.data|);
    assert Extent(v.image, lba, n)[..|f.data|] == Extent(v.image, lba, n)[0..|f.data|];
  }
}
