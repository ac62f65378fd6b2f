/** The boot logo reader, up to the drawing: how it holds and gives back its buffer. */
module FbLogo {
  import opened Options
  import opened Words
  import opened Disk
  import opened KfsLayout
  import opened Kfs
  import opened KfsContents
  import opened MemoryMap
  import opened PageAllocator
  import opened AllocatorRuns
  import opened ByteRange
  import opened Uex

  const FILE_HEADER: nat := 14
  const INFO_HEADER: nat := 40

  function U16(b: seq<byte>, off: nat): nat
    requires off + 2 <= |b|
  {
    b[off] + 0x100 * (b[off + 1] as nat)
  }

  /** Bytes of pixel data: rows of 24-bit pixels padded to four bytes, in 32-bit arithmetic. */
  function ImageSize(width: uint32, height: uint32): uint32 {
    ((width * 3 + 3) % WORD_LIMIT / 4 * 4) * height % WORD_LIMIT
  }

  /** The allocator has started up: page 0 and its bitmap are reserved, and all its pages exist. */
  ghost predicate Ready(loader: Loader)
    requires loader.Valid()
    reads loader, loader.volume, loader.volume.sb, loader.pages, loader.mem
  {
    HomeReserved(loader.pages.State(), loader.pages.home) && loader.pages.maxPages * PAGE_SIZE <= loader.mem.Length
  }

  /** That is so after start-up, with the bitmap in a safe place, and any run of requests. */
  lemma ReadyAfterRuns(loader: Loader, mmap: seq<Entry>, initial: seq<bool>, qs: seq<Request>)
    requires loader.Valid() && IsStart(mmap, loader.pages.home, initial)
    requires SafeHome(mmap, loader.pages.home, |initial|) && Legal(StartWorld(initial), qs)
    requires loader.pages.State() == Final(StartWorld(initial), qs).alloc
    requires loader.pages.maxPages * PAGE_SIZE <= loader.mem.Length
    ensures Ready(loader)
  {
    RunsKeepHome(mmap, loader.pages.home, initial, qs);
  }

  /** Memory differs at most in the bitmap and in the pages that an allocation of n finds. */
  ghost predicate OnlyBuffer(m0: Machine, m1: Machine, n: nat)
    requires m0.Valid()
  {
    var r := Allocated(m0.State(), n).1;
    if r.None? then m1.mem == m0.mem
    else
      && |m1.mem| == |m0.mem|
      && forall a :: 0 <= a < |m0.mem| && !InPages(r.value, n, a) ==>
           m0.home <= a < m0.home + BitmapSize(m0.maxPages) || m1.mem[a] == m0.mem[a]
  }

  /** The size is a row of three bytes a pixel, padded to a multiple of four, for every line of the
      picture, cut to 32 bits. */
  lemma ImageSizeMeans(width: uint32, height: uint32)
    requires width * 3 + 3 < WORD_LIMIT
    ensures exists row: nat ::
              row % 4 == 0 && 3 * width <= row < 3 * width + 4 && ImageSize(width, height) == row * height % WORD_LIMIT
  {
    RowOf(width);
  }

  lemma RowOf(width: uint32)
    requires width * 3 + 3 < WORD_LIMIT
    ensures var row := (width * 3 + 3) / 4 * 4;
            row % 4 == 0 && 3 * width <= row <= width * 3 + 3 && (width * 3 + 3) % WORD_LIMIT / 4 * 4 == row
  {
  }

  /** What the first 54 bytes of a file say: the status, and for a picture where its pixels start and
      how many bytes they are. */
  ghost function Verdict(h: seq<byte>): (int, uint32, uint32)
    requires |h| == FILE_HEADER + INFO_HEADER
  {
    if h[0] != 0x42 || h[1] != 0x4D then (-3, 0, 0)
    else if h[28] != 24 || h[29] != 0 || h[30] != 0 || h[31] != 0 || h[32] != 0 || h[33] != 0 then (-4, 0, 0)
    else (0, U32(h, 10), ImageSize(U32(h, 18), U32(h, 22)))
  }

  /** What reading the headers of a file comes to; a file that is too short for them leaves parts of
      the structures unset. */
  ghost predicate HeadersRead(
    image: seq<byte>, lba: uint32, size: uint32, status: int, offset: uint32, imageSize: uint32)
  {
    var f := RangeRead(image, lba, size, 0, FILE_HEADER);
    var i := RangeRead(image, lba, size, FILE_HEADER, INFO_HEADER);
    if !f.1 || !i.1 then status == -2
    else if size < FILE_HEADER + INFO_HEADER then status in {0, -3, -4}
    else (status, offset, imageSize) == Verdict(f.0 + i.0)
  }

  /** What reading the pixels comes to: no memory, or a missing sector, or all of them in the buffer,
      where they are when it is given back. */
  ghost predicate PixelsRead(image: seq<byte>, lba: uint32, size: uint32, offset: uint32, imageSize: uint32,
                             m0: Machine, m1: Machine, status: int)
    requires m0.Valid()
  {
    var (r, pixels) := (Allocated(m0.State(), PageCount(imageSize)).1, RangeRead(image, lba, size, offset, imageSize));
    && OnlyBuffer(m0, m1, PageCount(imageSize))
    && status == (if r.None? then -6 else if !pixels.1 then -5 else 0)
    && (r.Some? ==>
          && AddressOf(r) + |pixels.0| <= |m1.mem|
          && m1.mem[AddressOf(r)..AddressOf(r) + |pixels.0|] == pixels.0)
  }

  /** fblogo without the copy to the screen. However it ends, the page map is as it was, and no
      memory but that of its buffer and the bitmap has been written. */
  method FbLogo(loader: Loader, name: seq<byte>) returns (status: int, ghost offset: uint32, ghost imageSize: uint32)
    requires loader.Valid() && Ready(loader) && 0 !in name
    modifies loader.mem, loader.pages`lastFreePage
    ensures loader.Valid() && loader.pages.State().used == old(loader.pages.State().used)
    ensures FirstNamed(loader.volume.sb[..], name, None) <==> status == -1
    ensures status == -1 ==> loader.State() == old(loader.State())
    ensures forall k: nat :: FirstNamed(loader.volume.sb[..], name, Some(k)) ==>
              var (sb, image) := (loader.volume.sb[..], loader.volume.drive.data[..]);
              LogoOutcome(image, StartLba(sb, k), Size(sb, k), old(loader.State()), loader.State(), status, offset,
                          imageSize)
  {
    hide HomeReserved, PagesIn, HeadersRead, PixelsRead, RangeRead;
    offset, imageSize := 0, 0;
    var k := loader.volume.Find(name);
    if k.None? {
      return -1, offset, imageSize;
    }
    ghost var sb, image := loader.volume.sb[..], loader.volume.drive.data[..];
    assert forall j: nat :: FirstNamed(sb, name, Some(j)) ==> j == k.value;
    var lba, size := StartLba(loader.volume.sb[..], k.value), Size(loader.volume.sb[..], k.value);
    var pixelsAt, pixelBytes;
    status, pixelsAt, pixelBytes := ReadHeaders(loader.volume, lba, size);
    offset, imageSize := pixelsAt, pixelBytes;
    if status == 0 {
      status := ReadPixels(loader, lba, size, pixelsAt, pixelBytes);
    }
    assert loader.volume.sb[..] == sb && loader.volume.drive.data[..] == image;
  }

  /** The headers decide, and only for a picture the pixels are read. */
  ghost predicate LogoOutcome(image: seq<byte>, lba: uint32, size: uint32, m0: Machine, m1: Machine, status: int,
                              offset: uint32, imageSize: uint32)
    requires m0.Valid()
  {
    || (status in {-2, -3, -4} && HeadersRead(image, lba, size, status, offset, imageSize) && m1 == m0)
    || (HeadersRead(image, lba, size, 0, offset, imageSize)
        && PixelsRead(image, lba, size, offset, imageSize, m0, m1, status))
  }

  /** The two headers: where the pixels start, and how many bytes they are. */
  method ReadHeaders(volume: Volume, lba: uint32, size: uint32) returns (status: int, offset: uint32, imageSize: uint32)
    ensures status in {0, -2, -3, -4} && HeadersRead(volume.drive.data[..], lba, size, status, offset, imageSize)
  {
    hide RangeRead, Overlay, ImageSize, U32;
    offset, imageSize := 0, 0;
    ghost var image := volume.drive.data[..];
    var fh, ih := new byte[FILE_HEADER], new byte[INFO_HEADER];
    ghost var before := fh[..];
    var r := ReadRange(volume.drive, lba, size, 0, fh, 0, FILE_HEADER);
    if r < 0 {
      return -2, offset, imageSize;
    }
    ghost var f, before' := fh[..], ih[..];
    r := ReadRange(volume.drive, lba, size, FILE_HEADER, ih, 0, INFO_HEADER);
    if r < 0 {
      return -2, offset, imageSize;
    }
    ghost var i := ih[..];
    assert fh[..] == f && volume.drive.data[..] == image;
    if size >= FILE_HEADER + INFO_HEADER {
      OverlayAll(before, RangeRead(image, lba, size, 0, FILE_HEADER).0);
      OverlayAll(before', RangeRead(image, lba, size, FILE_HEADER, INFO_HEADER).0);
    }
    HeaderParts(f, i);
    if U16(fh[..], 0) != 0x4D42 {
      return -3, offset, imageSize;
    }
    if U16(ih[..], 14) != 24 || U32(ih[..], 16) != 0 {
      return -4, offset, imageSize;
    }
    return 0, U32(fh[..], 10), ImageSize(U32(ih[..], 4), U32(ih[..], 8));
  }

  lemma OverlayAll(s: seq<byte>, t: seq<byte>)
    requires |t| == |s|
    ensures Overlay(s, 0, t) == t
  {
  }

  /** The fields of the two headers, as bytes and words of the first 54 bytes of the file. */
  lemma HeaderParts(f: seq<byte>, i: seq<byte>)
    requires |f| == FILE_HEADER && |i| == INFO_HEADER
    ensures var h := f + i;
            && (U16(f, 0) == 0x4D42 <==> h[0] == 0x42 && h[1] == 0x4D) && U32(h, 10) == U32(f, 10)
            && (U16(i, 14) == 24 <==> h[28] == 24 && h[29] == 0) && U32(h, 18) == U32(i, 4) && U32(h, 22) == U32(i, 8)
            && (U32(i, 16) == 0 <==> h[30] == 0 && h[31] == 0 && h[32] == 0 && h[33] == 0)
  {
    var h := f + i;
    assert h[10..14] == f[10..14] && h[18..22] == i[4..8] && h[22..26] == i[8..12];
    WordIs(i, 16, 0);
    assert Le(0) == [0, 0, 0, 0];
    assert i[16..20] == [h[30], h[31], h[32], h[33]];
  }

  /** Allocate a buffer, read the pixels into it, give it back. */
  method ReadPixels(loader: Loader, lba: uint32, size: uint32, offset: uint32, imageSize: uint32) returns (status: int)
    requires loader.Valid() && Ready(loader)
    modifies loader.mem, loader.pages`lastFreePage
    ensures loader.Valid() && loader.pages.State().used == old(loader.pages.State().used)
    ensures status in {0, -5, -6}
    ensures PixelsRead(loader.volume.drive.data[..], lba, size, offset, imageSize, old(loader.State()), loader.State(),
                       status)
  {
    hide HomeReserved, Allocated, Freed, PagesIn, OnlyBuffer, SameOutside, BitmapSize, PageCount, RangeRead;
    hide CopyLength, Overlay;
    CopyLengthIsCut(size, offset, imageSize);
    ghost var m0 := loader.State();
    var n := PageCount(imageSize);
    BufferFits(m0.State(), m0.home, imageSize, n);
    var buf := loader.pages.Alloc(n);
    if buf == 0 {
      NoBuffer(m0, loader.State(), n);
      return -6;
    }
    ghost var m1 := loader.State();
    var r := ReadRange(loader.volume.drive, lba, size, offset, loader.mem, buf, imageSize);
    ghost var m2, pixels := loader.State(), RangeRead(loader.volume.drive.data[..], lba, size, offset, imageSize).0;
    OverlayOutside(m1.mem, buf, pixels, CopyLength(size, offset, imageSize));
    BufferRead(m1, m2, buf, CopyLength(size, offset, imageSize), n);
    OverlayThere(m1.mem, buf, pixels);
    loader.pages.Free(buf, n);
    BufferOnly(m0, m1, m2, loader.State(), n);
    PixelsStay(m2.mem, loader.mem[..], m0.home, BitmapSize(m0.maxPages), buf, |pixels|, n * PAGE_SIZE);
    return if r < 0 then -5 else 0;
  }

  /** Giving the buffer back writes to the bitmap only. */
  lemma PixelsStay(before: seq<byte>, after: seq<byte>, home: nat, size: nat, buf: nat, k: nat, room: nat)
    requires SameOutside(before, after, home, size) && Apart(buf, room, home, size) && k <= room && buf + k <= |before|
    ensures |after| == |before| && after[buf..buf + k] == before[buf..buf + k]
  {
  }

  /** A buffer of n pages holds the pixels, lies in memory, and is clear of the bitmap; giving it
      back undoes the allocation. */
  lemma BufferFits(st: AllocState, home: nat, imageSize: uint32, n: nat)
    requires HomeReserved(st, home) && n == PageCount(imageSize)
    ensures var (st', r) := Allocated(st, n);
            && (AddressOf(r) == 0 <==> r.None?) && (r.None? ==> st'.used == st.used)
            && (r.Some? ==>
                  && imageSize <= n * PAGE_SIZE && AddressOf(r) + n * PAGE_SIZE <= |st.used| * PAGE_SIZE
                  && Apart(AddressOf(r), n * PAGE_SIZE, home, BitmapSize(|st.used|))
                  && Freed(st', AddressOf(r) / PAGE_SIZE, n).used == st.used)
  {
    AllocationTakes(st, n);
    if Allocated(st, n).1.Some? {
      BlockMissesBitmap(st, home, n);
      PagesHold(imageSize, n);
    }
  }

  lemma PagesHold(imageSize: uint32, n: nat)
    requires n == PageCount(imageSize) > 0
    ensures imageSize <= n * PAGE_SIZE
  {
  }

  /** Reading into the buffer leaves the page map alone. */
  lemma BufferRead(m1: Machine, m2: Machine, buf: nat, k: nat, n: nat)
    requires m1.Valid() && m2 == m1.(mem := m2.mem) && SameOutside(m1.mem, m2.mem, buf, k) && k <= n * PAGE_SIZE
    requires Apart(buf, n * PAGE_SIZE, m1.home, BitmapSize(m1.maxPages))
    ensures m2.Valid() && m2.State() == m1.State()
  {
    var lo, hi := m1.home, m1.home + BitmapSize(m1.maxPages);
    assert m2.mem[lo..hi] == m1.mem[lo..hi];
  }

  lemma CopyLengthIsCut(fileSize: uint32, offset: uint32, size: uint32)
    ensures CopyLength(fileSize, offset, size) <= size
  {
  }

  lemma NoBuffer(m0: Machine, m1: Machine, n: nat)
    requires m0.Valid() && Allocated(m0.State(), n).1.None? && m1.mem == m0.mem
    ensures OnlyBuffer(m0, m1, n)
  {
  }

  lemma BufferOnly(m0: Machine, m1: Machine, m2: Machine, m3: Machine, n: nat)
    requires m0.Valid() && Allocated(m0.State(), n).1.Some?
    requires SameOutside(m0.mem, m1.mem, m0.home, BitmapSize(m0.maxPages))
    requires exists k: nat ::
               k <= n * PAGE_SIZE && SameOutside(m1.mem, m2.mem, AddressOf(Allocated(m0.State(), n).1), k)
    requires SameOutside(m2.mem, m3.mem, m0.home, BitmapSize(m0.maxPages))
    ensures OnlyBuffer(m0, m3, n)
  {
    hide Allocated, BitmapSize;
  }

  /** For a file that a volume holds: the headers are its first 54 bytes, so what they say decides. */
  lemma HeldHeaders(image: seq<byte>, sb: seq<byte>, files: seq<File>, i: nat, status: int, offset: uint32,
                    imageSize: uint32)
    requires Holds(image, sb, files) && i < |files| && FILE_HEADER + INFO_HEADER <= |files[i].data| < WORD_LIMIT
    requires HeadersRead(image, StartLba(sb, i), Size(sb, i), status, offset, imageSize)
    ensures (status, offset, imageSize) == Verdict(files[i].data[..FILE_HEADER + INFO_HEADER])
  {
    hide RangeRead, Verdict, Holds;
    var data := files[i].data;
    HeldEntries(image, sb, files);
    HeldRangeIsRead(image, sb, files, i, 0, FILE_HEADER);
    HeldRangeIsRead(image, sb, files, i, FILE_HEADER, INFO_HEADER);
    HeldSize(image, sb, files, i);
    assert data[0..14] + data[14..54] == data[..54];
  }

  lemma HeldSize(image: seq<byte>, sb: seq<byte>, files: seq<File>, i: nat)
    requires Holds(image, sb, files) && i < |files|
    ensures i < KFS_MAX_FILES && |sb| == SECTOR && Size(sb, i) == |files[i].data|
  {
    assert StoresAt(image, sb, i, files[i]);
  }
}
