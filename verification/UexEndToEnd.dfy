/** From the packers on the host to a program in memory: a packed program is put on a volume, by the
    image builder or by the kernel, and loaded from it. */
module UexEndToEnd {
  import opened Options
  import opened Words
  import opened Disk
  import opened KfsLayout
  import opened Kfs
  import opened KfsContents
  import opened KfsRuns
  import opened KfsEndToEnd
  import opened ImageBuilder
  import opened PageAllocator
  import opened UexFormat
  import opened Uex
  import opened UexCorrect

  /** A packed program that a volume stores as a file is on the volume for the loader. */
  lemma StoredIsOnVolume(image: seq<byte>, sb: seq<byte>, i: nat, name: seq<byte>, program: seq<byte>,
                         loadAddr: uint32)
    requires |sb| == SECTOR && i < KFS_MAX_FILES && PackableProgram(program)
    requires StoresAt(image, sb, i, File(name, Packed(program, loadAddr)))
    requires StartLba(sb, i) + SectorsFor(Size(sb, i)) <= LBA_LIMIT
    ensures OnVolume(image, sb, i, program, loadAddr)
  {
    hide Packed, Named, SectorsFor;
    PackedLength(program, loadAddr);
  }

  lemma PackedLength(program: seq<byte>, loadAddr: uint32)
    requires PackableProgram(program)
    ensures |Packed(program, loadAddr)| == HEADER_SIZE + |program|
  {
  }

  /** So it is at any point of a run of formatting, writing and remounting at which it is stored. */
  lemma TrackedIsOnVolume(v: Store, es: seq<KfsRuns.Entry>, i: nat, name: seq<byte>, program: seq<byte>,
                          loadAddr: uint32)
    requires Tracked(v, es) && i < |es| && PackableProgram(program)
    requires es[i] == Stored(File(name, Packed(program, loadAddr)))
    ensures OnVolume(v.image, v.sb, i, program, loadAddr)
  {
    hide StoresAt, Packed, Named;
    FewSectorsBefore(v.sb);
    SectorsBeforeGrows(v.sb, i, Count(v.sb));
    StoredIsOnVolume(v.image, v.sb, i, name, program, loadAddr);
  }

  /** And on an image that the builder has packed. */
  lemma ImageIsTracked(files: seq<File>)
    requires Packable(files) && Ordinary(files)
    ensures var es := seq(|files|, k requires 0 <= k < |files| => Stored(files[k]));
            Tracked(Store(Image(files), Superblock(files)), es)
  {
    hide StoresAt, Image, Superblock, Named;
    ImageHoldsFiles(files);
    forall i: nat | i < |files| ensures Named(Superblock(files), i, files[i].name) {
      StoredIsNamed(Image(files), Superblock(files), i, files[i]);
    }
  }

  lemma StoredIsNamed(image: seq<byte>, sb: seq<byte>, i: nat, f: File)
    requires |sb| == SECTOR && i < KFS_MAX_FILES && StoresAt(image, sb, i, f)
    ensures Named(sb, i, f.name)
  {
  }

  /** The place of a packed program, and memory for it. */
  ghost predicate HasMemory(program: seq<byte>, loadAddr: uint32, m: Machine)
    requires PackableProgram(program) && m.Valid()
  {
    var h := PackedHeader(program, loadAddr);
    Destination(h, m.State()) + Reach(h) <= |m.mem| && Destination(h, m.State()) + |program| <= |m.mem|
  }

  /** What comes of executing a packed program. */
  ghost predicate RunsFromVolume(program: seq<byte>, loadAddr: uint32, m0: Machine, p: Machine, m1: Machine,
                                 status: int, entry: nat)
    requires PackableProgram(program) && m0.Valid()
  {
    var (h, dest) := (PackedHeader(program, loadAddr), Destination(PackedHeader(program, loadAddr), m0.State()));
    && Placed(m0, p, h)
    && (dest == 0 ==> status == ERR_OOM && m1 == p)
    && (dest != 0 ==> LoadOutcome(program, loadAddr, dest, p.mem, m1.mem, status, entry))
  }

  lemma StoredRuns(image: seq<byte>, sb: seq<byte>, i: nat, program: seq<byte>, loadAddr: uint32,
                   m0: Machine, p: Machine, m1: Machine, status: int, entry: nat, base: nat, n: nat)
    requires |sb| == SECTOR && i < KFS_MAX_FILES && OnVolume(image, sb, i, program, loadAddr) && m0.Valid()
    requires HasMemory(program, loadAddr, m0)
    requires Executed(image, sb, i, m0, p, m1, status, entry, base, n)
    ensures RunsFromVolume(program, loadAddr, m0, p, m1, status, entry)
  {
    hide Executed, OnVolume, Placed, LoadOutcome, Allocated, PagesIn, Reach, PackedHeader;
    LoaderIsCorrect(image, sb, i, program, loadAddr, m0, p, m1, status, entry, base, n);
  }

  /** The room that the loader asks for. */
  lemma EnoughRoom(image: seq<byte>, sb: seq<byte>, i: nat, program: seq<byte>, loadAddr: uint32, m: Machine)
    requires |sb| == SECTOR && i < KFS_MAX_FILES && OnVolume(image, sb, i, program, loadAddr) && m.Valid()
    requires HasMemory(program, loadAddr, m)
    ensures RoomFor(image, sb, i, m)
  {
    hide OnVolume, Allocated, PagesIn, Reach;
    PackedIsAccepted(image, sb, i, program, loadAddr);
  }

  /** Pack a program, build an image with it, mount the image, and have the kernel load the program
      by its name, however large it and the other files are: if a place is found for it, it is in
      memory and entered at its first byte, in the cases that the loader gets right. */
  method PackMountExec(files: seq<File>, i: nat, program: seq<byte>, loadAddr: uint32, pages: Allocator)
    returns (status: int, entry: nat, base: nat, n: nat, ghost p: Machine)
    requires Ordinary(files) && i < |files| && PackableProgram(program) && files[i].data == Packed(program, loadAddr)
    requires forall j: nat :: j < i ==> files[j].name != files[i].name
    requires pages.Valid() && HasMemory(program, loadAddr, MachineOf(pages))
    modifies pages`lastFreePage, pages.mem
    ensures pages.Valid()
    ensures RunsFromVolume(program, loadAddr, old(MachineOf(pages)), p, MachineOf(pages), status, entry)
  {
    OrdinaryIsPackable(files);
    PackedFileIsFound(files, i);
    ImageIsTracked(files);
    PackedLength(program, loadAddr);
    assert files[i] in files;
    var img := BuildImage(files);
    var drive := new Drive(img);
    var volume := new Volume(drive);
    var ok := volume.Mount();
    ProgramOfImage(files, i, program, loadAddr);
    var loader := new Loader(volume, pages);
    status, entry, base, n, p := ExecMounted(loader, files[i].name, i, program, loadAddr);
  }

  ghost function MachineOf(pages: Allocator): (m: Machine)
    requires pages.Valid()
    reads pages, pages.mem
    ensures m.Valid() && m.State() == pages.State()
  {
    Machine(pages.mem[..], pages.home, pages.maxPages, pages.lastFreePage)
  }

  lemma ProgramOfImage(files: seq<File>, i: nat, program: seq<byte>, loadAddr: uint32)
    requires Packable(files) && Ordinary(files) && i < |files| && PackableProgram(program)
    requires files[i].data == Packed(program, loadAddr)
    ensures OnVolume(Image(files), Superblock(files), i, program, loadAddr)
  {
    hide Tracked, OnVolume, Image, Superblock;
    ImageIsTracked(files);
    var es := seq(|files|, k requires 0 <= k < |files| => Stored(files[k]));
    TrackedIsOnVolume(Store(Image(files), Superblock(files)), es, i, files[i].name, program, loadAddr);
  }

  method ExecMounted(loader: Loader, name: seq<byte>, i: nat, program: seq<byte>, loadAddr: uint32)
    returns (status: int, entry: nat, base: nat, n: nat, ghost p: Machine)
    requires loader.Valid() && 0 !in name && FirstNamed(loader.volume.sb[..], name, Some(i)) && i < KFS_MAX_FILES
    requires OnVolume(loader.volume.drive.data[..], loader.volume.sb[..], i, program, loadAddr)
    requires HasMemory(program, loadAddr, loader.State())
    modifies loader.pages`lastFreePage, loader.mem
    ensures loader.Valid()
    ensures RunsFromVolume(program, loadAddr, old(loader.State()), p, loader.State(), status, entry)
  {
    hide OnVolume, HasMemory, Executed, RunsFromVolume, RoomFor, PagesIn;
    ghost var image, sb, m0 := loader.volume.drive.data[..], loader.volume.sb[..], loader.State();
    EnoughRoom(image, sb, i, program, loadAddr, m0);
    assert forall k: nat :: FirstNamed(sb, name, Some(k)) ==> k == i;
    status, entry, base, n, p := loader.UexExec(name);
    StoredRuns(image, sb, i, program, loadAddr, m0, p, loader.State(), status, entry, base, n);
  }
}
