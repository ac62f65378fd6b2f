/** The physical page allocator: a bitmap scanned by a next-fit search with a
    hint, word skipping and one wrap-around pass. */
module PageAllocator {
  import opened Options
  import opened PageRuns
  import opened Bitmap
  import opened MemoryMap
  import opened Words

  /** What the allocator knows: which pages are reserved, and where the next search starts. */
  datatype AllocState = AllocState(used: seq<bool>, hint: nat) {
    ghost predicate Valid() {
      hint <= |used|
    }
  }

  /** Reference allocation: the lowest run at or above the hint, else the lowest run
      wholly below it, else nothing; the hint moves to the end of the run, or to 0. */
  ghost function Allocated(st: AllocState, n: nat): (r: (AllocState, Option<nat>))
    requires st.Valid()
    ensures r.0.Valid() && |r.0.used| == |st.used|
  {
    if n == 0 then (st, None)
    else
      FirstRunIsLowest(st.used, st.hint, |st.used|, n);
      FirstRunIsLowest(st.used, 0, st.hint, n);
      match FirstRun(st.used, st.hint, |st.used|, n)
      case Some(s) => (AllocState(Mark(st.used, s, n, true), s + n), Some(s))
      case None =>
        match FirstRun(st.used, 0, st.hint, n)
        case Some(s) => (AllocState(Mark(st.used, s, n, true), s + n), Some(s))
        case None => (AllocState(st.used, 0), None)
  }

  /** Bytes of a bitmap for n pages. */
  function BitmapSize(n: nat): (size: nat)
    ensures n <= 8 * size < n + 8
  {
    (n + 7) / 8
  }

  /** The map has pages, and where the bitmap is put the marks for its own pages stay inside it. */
  ghost predicate HomeFits(mmap: seq<Entry>, n: nat) {
    var size := BitmapSize(n);
    n > 0 && forall home: nat :: IsBitmapHome(mmap, size, Some(home)) ==> home / PAGE_SIZE + PagesFor(size) <= 8 * size
  }

  /** The map ends with page n. */
  ghost predicate TopPages(mmap: seq<Entry>, n: nat) {
    exists top: nat :: IsTop(mmap, top) && n == top / PAGE_SIZE
  }

  /** The page map start-up leaves: free are the pages from 1 on that a usable entry covers,
      apart from as many pages as the bitmap's size takes, from the one it starts in. */
  ghost predicate IsInitialMap(mmap: seq<Entry>, home: nat, used: seq<bool>) {
    var bitmapPages := PagesFor(BitmapSize(|used|));
    forall p: nat :: p < |used| ==>
      used[p] == (p == 0 || !Covered(mmap, p) || home / PAGE_SIZE <= p < home / PAGE_SIZE + bitmapPages)
  }

  /** The allocator's state after start-up: the map's pages, the bitmap's place, the page map. */
  ghost predicate IsStart(mmap: seq<Entry>, home: nat, used: seq<bool>) {
    && |used| > 0 && TopPages(mmap, |used|)
    && IsBitmapHome(mmap, BitmapSize(|used|), Some(home)) && IsInitialMap(mmap, home, used)
  }

  /** Page p holds a byte of a bitmap of `size` bytes at `home`. */
  predicate HoldsBitmap(home: nat, size: nat, p: nat) {
    size > 0 && home / PAGE_SIZE <= p <= (home + size - 1) / PAGE_SIZE
  }

  /** The last page that start-up marks for the bitmap, or else page 0. */
  function LastMark(home: nat, n: nat): nat {
    var k := PagesFor(BitmapSize(n));
    if k == 0 then 0 else home / PAGE_SIZE + k - 1
  }

  /** The bytes that start-up's marks go to exist. */
  ghost predicate MarksInMemory(mmap: seq<Entry>, length: nat) {
    forall n: nat, home: nat :: TopPages(mmap, n) && IsBitmapHome(mmap, BitmapSize(n), Some(home)) ==>
      home + LastMark(home, n) / 8 < length
  }

  /** What start-up writes outside the bitmap: the marks for the bitmap's own pages, as far as they
      lie behind it, or on a map without pages the mark for page 0. */
  ghost predicate InitMarks(before: seq<byte>, after: seq<byte>, home: nat, n: nat) {
    var size := BitmapSize(n);
    if n > 0 then MarksBehind(before, after, home, size, home / PAGE_SIZE, PagesFor(size))
    else MarksBehind(before, after, home, size, 0, 1)
  }

  /** The bitmap ends in the last of the pages counted for it, or runs over into a page that is
      not free anyhow. */
  ghost predicate SafeHome(mmap: seq<Entry>, home: nat, n: nat) {
    var size := BitmapSize(n);
    var next := home / PAGE_SIZE + PagesFor(size);
    home % PAGE_SIZE + size <= PagesFor(size) * PAGE_SIZE || n <= next || !Covered(mmap, next)
  }

  datatype InitOutcome = NoUsableMemory | NoRoomForBitmap | Ready

  /** Reference release of `n` pages from page `s` on. */
  ghost function Freed(st: AllocState, s: nat, n: nat): AllocState {
    AllocState(Mark(st.used, s, n, false), if s < st.hint then s else st.hint)
  }

  /** The address that stands for an allocation result, NULL being 0. */
  function AddressOf(r: Option<nat>): nat {
    match r
    case Some(s) => s * PAGE_SIZE
    case None => 0
  }

  /** The page map has fewer than 2^20 pages. */
  lemma TopBelow4GB(mmap: seq<Entry>, n: nat)
    requires TopPages(mmap, n)
    ensures n < 0x10_0000
  {
    var top: nat :| IsTop(mmap, top) && n == top / PAGE_SIZE;
  }

  /** The bitmap's place is the start of an entry with room for it. */
  lemma PlaceIsEntry(mmap: seq<Entry>, size: nat, place: nat)
    requires IsBitmapHome(mmap, size, Some(place))
    ensures exists e :: e in mmap && AnyRoom(e, size) && e.baseLow == place
  {
    var k: nat :| k < |mmap| && mmap[k].baseLow == place && IsFirstRoom(mmap, size, k);
    assert mmap[k] in mmap;
  }

  /** There is one place at most. */
  lemma HomeIsUnique(mmap: seq<Entry>, size: nat, a: nat, b: nat)
    requires IsBitmapHome(mmap, size, Some(a)) && IsBitmapHome(mmap, size, Some(b))
    ensures a == b
  {
    var i: nat :| i < |mmap| && mmap[i].baseLow == a && IsFirstRoom(mmap, size, i);
    var k: nat :| k < |mmap| && mmap[k].baseLow == b && IsFirstRoom(mmap, size, k);
    assert i == k;
  }

  /** A bitmap takes its size's worth of pages, or one more. */
  lemma BitmapPages(home: nat, size: nat)
    requires size > 0
    ensures var (h, k, last) := (home / PAGE_SIZE, PagesFor(size), (home + size - 1) / PAGE_SIZE);
            k > 0 && last == if home % PAGE_SIZE + size <= k * PAGE_SIZE then h + k - 1 else h + k
  {
    var r := home % PAGE_SIZE;
    assert home + size - 1 == PAGE_SIZE * (home / PAGE_SIZE) + (r + size - 1);
  }

  /** Start-up reserves every page of the map that holds a byte of the bitmap exactly when the
      bitmap's place is safe: the pages counted for it do not allow for an unaligned start. */
  lemma BitmapIsReserved(mmap: seq<Entry>, home: nat, used: seq<bool>)
    requires IsStart(mmap, home, used)
    ensures SafeHome(mmap, home, |used|) <==>
            forall p: nat :: p < |used| && HoldsBitmap(home, BitmapSize(|used|), p) ==> used[p]
  {
    var size := BitmapSize(|used|);
    var next := home / PAGE_SIZE + PagesFor(size);
    BitmapPages(home, size);
    if !SafeHome(mmap, home, |used|) {
      assert HoldsBitmap(home, size, next) && !used[next];
    }
  }

  /** Page p is one of those counted for the bitmap. */
  predicate CountedForBitmap(home: nat, size: nat, p: nat) {
    home / PAGE_SIZE <= p < home / PAGE_SIZE + PagesFor(size)
  }

  /** On a map of page-aligned usable entries below 4 GB, of any lengths, the pages free after start-up
      are exactly those from 1 on that lie wholly in a usable entry and are not counted for the bitmap. */
  lemma FreePagesAreUsable(mmap: seq<Entry>, home: nat, used: seq<bool>, p: nat)
    requires IsInitialMap(mmap, home, used) && p < |used|
    requires forall e :: e in mmap && e.kind == 1 ==> LowAligned(e)
    ensures !used[p] <==>
            && p >= 1 && !CountedForBitmap(home, BitmapSize(|used|), p)
            && exists e :: e in mmap && e.kind == 1 && HoldsPage(e, p)
  {
    hide HoldsPage;
    forall e | e in mmap && e.kind == 1 ensures e.HasPage(p) <==> HoldsPage(e, p) {
      HasPageMeans(e, p);
    }
    if Covered(mmap, p) {
      var e :| e in mmap && e.Usable() && e.HasPage(p);
      assert HoldsPage(e, p);
    }
    if exists e :: e in mmap && e.kind == 1 && HoldsPage(e, p) {
      var e :| e in mmap && e.kind == 1 && HoldsPage(e, p);
      assert e.Usable() && e.HasPage(p);
    }
  }

  /** A map on which it is not: page 0x101 holds the end of the bitmap and is free. */
  const UNALIGNED_MAP: seq<Entry> := [Entry(0x10_0800, 0, 0x480_0000, 0, 1)]

  lemma UnalignedMapStarts(used: seq<bool>)
    requires |used| == 0x4900 && IsInitialMap(UNALIGNED_MAP, 0x10_0800, used)
    ensures HomeFits(UNALIGNED_MAP, 0x4900) && IsStart(UNALIGNED_MAP, 0x10_0800, used)
    ensures !used[0x101] && HoldsBitmap(0x10_0800, BitmapSize(0x4900), 0x101)
    ensures !SafeHome(UNALIGNED_MAP, 0x10_0800, 0x4900)
  {
    var e := UNALIGNED_MAP[0];
    assert e in UNALIGNED_MAP && e.Usable() && e.End() == 0x490_0800;
    assert IsTop(UNALIGNED_MAP, 0x490_0800) && 0x490_0800 / PAGE_SIZE == 0x4900;
    assert BitmapSize(0x4900) == 0x920 && PagesFor(0x920) == 1;
    assert IsFirstRoom(UNALIGNED_MAP, 0x920, 0);
    assert e.HasPage(0x101);
  }

  /** A page-aligned place is safe, and fits when the last page counted ends within the map. */
  lemma AlignedHome(mmap: seq<Entry>, home: nat, top: nat)
    requires home % PAGE_SIZE == 0
    ensures SafeHome(mmap, home, top / PAGE_SIZE)
    ensures var (n, k) := (top / PAGE_SIZE, PagesFor(BitmapSize(top / PAGE_SIZE)));
            home + k * PAGE_SIZE <= top <==> home / PAGE_SIZE + k <= n
  {
  }

  lemma CoveredOneMore(mmap: seq<Entry>, i: nat)
    requires i < |mmap|
    ensures forall p: nat :: Covered(mmap[..i + 1], p) ==
              (Covered(mmap[..i], p) ||
               (mmap[i].Usable() && mmap[i].HasPage(p)))
  {
    assert mmap[..i + 1] == mmap[..i] + [mmap[i]];
    forall p: nat | Covered(mmap[..i], p) ensures Covered(mmap[..i + 1], p) {
      var e :| e in mmap[..i] && e.Usable() && e.HasPage(p);
      assert e in mmap[..i + 1];
    }
    assert mmap[i] in mmap[..i + 1];
  }

  lemma FullBytesAreReserved(bytes: seq<byte>, n: nat)
    requires n <= 8 * |bytes|
    requires forall j :: 0 <= j < |bytes| ==> bytes[j] == 0xFF
    ensures forall p :: 0 <= p < n ==> Pages(bytes, n)[p]
  {
    forall p | 0 <= p < n ensures Pages(bytes, n)[p] {
      PageIsBit(bytes, n, p);
      FullByte(p % 8);
    }
  }

  /** A byte, `at` bytes from the start of the bitmap, after BITMAP_SET of pages start, ..., start + n - 1. */
  ghost function MarkedByte(b: byte, at: nat, start: nat, n: nat): byte {
    if n == 0 then b
    else
      var c, p := MarkedByte(b, at, start, n - 1), start + n - 1;
      if p / 8 == at then SetBit(c, p % 8) else c
  }

  /** Outside the bitmap memory has changed by these marks only, behind it. */
  ghost predicate MarksBehind(before: seq<byte>, after: seq<byte>, home: nat, size: nat, start: nat, n: nat) {
    && |after| == |before|
    && (forall a :: 0 <= a < |before| && a < home ==> after[a] == before[a])
    && (forall a :: home + size <= a < |before| ==> after[a] == MarkedByte(before[a], a - home, start, n))
  }

  lemma {:induction false} MarkedInside(b: byte, at: nat, start: nat, n: nat, size: nat)
    requires start + n <= 8 * size <= 8 * at
    ensures MarkedByte(b, at, start, n) == b
  {
    if n > 0 {
      MarkedInside(b, at, start, n - 1, size);
    }
  }

  /** Marks inside the bitmap leave everything else alone. */
  lemma MarksInside(before: seq<byte>, after: seq<byte>, home: nat, size: nat, start: nat, n: nat)
    requires MarksBehind(before, after, home, size, start, n) && start + n <= 8 * size
    ensures SameOutside(before, after, home, size)
  {
    forall a | home + size <= a < |before| ensures after[a] == before[a] {
      MarkedInside(before[a], a - home, start, n, size);
    }
  }

  /** Its bits: those it had, and one for each of the pages that the bitmap would have there. */
  lemma {:induction false} MarkedBits(b: byte, at: nat, start: nat, n: nat, j: nat)
    requires j < 8
    ensures TestBit(MarkedByte(b, at, start, n), j) <==> TestBit(b, j) || start <= 8 * at + j < start + n
  {
    hide TestBit, SetBit;
    if n > 0 {
      var p := start + n - 1;
      MarkedBits(b, at, start, n - 1, j);
      SetBitMeaning(MarkedByte(b, at, start, n - 1), p % 8, j);
    }
  }

  lemma NoMarks(mem: seq<byte>, home: nat, size: nat, start: nat)
    ensures MarksBehind(mem, mem, home, size, start, 0)
  {
  }

  lemma OneMark(mem: seq<byte>, home: nat, size: nat, p: nat, b: byte)
    requires home + p / 8 < |mem| && b == SetBit(mem[home + p / 8], p % 8)
    ensures MarksBehind(mem, mem[home + p / 8 := b], home, size, p, 1)
  {
    hide SetBit;
    forall c: byte, at: nat ensures MarkedByte(c, at, p, 1) == if p / 8 == at then SetBit(c, p % 8) else c {
      assert MarkedByte(c, at, p, 0) == c;
    }
  }

  lemma MoreMarks(before: seq<byte>, mid: seq<byte>, after: seq<byte>, home: nat, size: nat, start: nat, n: nat)
    requires MarksBehind(before, mid, home, size, start, n) && MarksBehind(mid, after, home, size, start + n, 1)
    ensures MarksBehind(before, after, home, size, start, n + 1)
  {
    hide SetBit;
    forall a | home + size <= a < |before| ensures after[a] == MarkedByte(before[a], a - home, start, n + 1) {
      assert MarkedByte(mid[a], a - home, start + n, 0) == mid[a];
    }
  }

  /** The page map that memory holds in a bitmap at `home`. */
  ghost function PagesIn(mem: seq<byte>, home: nat, n: nat): (used: seq<bool>)
    requires home + BitmapSize(n) <= |mem|
    ensures |used| == n
  {
    Pages(mem[home..home + BitmapSize(n)], n)
  }

  lemma PageInMemory(mem: seq<byte>, home: nat, n: nat, p: nat)
    requires home + BitmapSize(n) <= |mem| && p < n
    ensures PagesIn(mem, home, n)[p] == TestBit(mem[home + p / 8], p % 8)
  {
    PageIsBit(mem[home..home + BitmapSize(n)], n, p);
  }

  lemma SetInMemory(mem: seq<byte>, home: nat, n: nat, p: nat, b: byte)
    requires home + BitmapSize(n) <= |mem| && home + p / 8 < |mem| && b == SetBit(mem[home + p / 8], p % 8)
    ensures PagesIn(mem[home + p / 8 := b], home, n) ==
            if p < n then PagesIn(mem, home, n)[p := true] else PagesIn(mem, home, n)
  {
    hide SetBit, ClearBit, TestBit, Pages;
    var bytes := mem[home..home + BitmapSize(n)];
    if p < 8 * BitmapSize(n) {
      SetReservesOne(bytes, n, p);
      assert mem[home + p / 8 := b][home..home + BitmapSize(n)] == bytes[p / 8 := b];
    } else {
      assert mem[home + p / 8 := b][home..home + BitmapSize(n)] == bytes;
    }
  }

  lemma ClearInMemory(mem: seq<byte>, home: nat, n: nat, p: nat, b: byte)
    requires home + BitmapSize(n) <= |mem| && p < n && b == ClearBit(mem[home + p / 8], p % 8)
    ensures PagesIn(mem[home + p / 8 := b], home, n) == PagesIn(mem, home, n)[p := false]
  {
    hide SetBit, ClearBit, TestBit, Pages;
    var bytes := mem[home..home + BitmapSize(n)];
    ClearFreesOne(bytes, n, p);
    assert mem[home + p / 8 := b][home..home + BitmapSize(n)] == bytes[p / 8 := b];
  }

  lemma FullInMemory(mem: seq<byte>, home: nat, n: nat)
    requires home + BitmapSize(n) <= |mem|
    requires forall k :: home <= k < home + BitmapSize(n) ==> mem[k] == 0xFF
    ensures forall p :: 0 <= p < n ==> PagesIn(mem, home, n)[p]
  {
    FullBytesAreReserved(mem[home..home + BitmapSize(n)], n);
  }

  /** The marking steps one after the other. */
  lemma AllMarks(before: seq<byte>, cleared: seq<byte>, marked: seq<byte>, after: seq<byte>, home: nat, n: nat)
    requires SameOutside(before, cleared, home, BitmapSize(n))
    requires MarksBehind(cleared, marked, home, BitmapSize(n), home / PAGE_SIZE, PagesFor(BitmapSize(n)))
    requires MarksBehind(marked, after, home, BitmapSize(n), 0, 1)
    ensures InitMarks(before, after, home, n)
  {
    if n > 0 {
      MarksInside(marked, after, home, BitmapSize(n), 0, 1);
    }
  }

  lemma FittingMarks(before: seq<byte>, after: seq<byte>, home: nat, n: nat)
    requires n > 0 && InitMarks(before, after, home, n)
    requires home / PAGE_SIZE + PagesFor(BitmapSize(n)) <= 8 * BitmapSize(n)
    ensures SameOutside(before, after, home, BitmapSize(n))
  {
    MarksInside(before, after, home, BitmapSize(n), home / PAGE_SIZE, PagesFor(BitmapSize(n)));
  }

  /** Every usable entry is made of whole pages below 4 GB. */
  predicate AlignedMap(mmap: seq<Entry>) {
    forall e :: e in mmap && e.Usable() ==> IsWhole(e)
  }

  predicate IsWhole(e: Entry) {
    && e.baseHigh == e.lengthHigh == 0 && e.baseLow + e.lengthLow < WORD_LIMIT
    && e.baseLow % PAGE_SIZE == e.lengthLow % PAGE_SIZE == 0
  }

  lemma WholeEnd(e: Entry)
    requires IsWhole(e)
    ensures e.End() == e.baseLow + e.lengthLow
  {
  }

  /** On such a map the marks always stay inside the bitmap. */
  lemma AlignedMapFits(mmap: seq<Entry>, n: nat)
    requires AlignedMap(mmap) && TopPages(mmap, n) && n > 0
    ensures HomeFits(mmap, n)
  {
    var top: nat :| IsTop(mmap, top) && n == top / PAGE_SIZE;
    hide IsBitmapHome, PagesFor, BitmapSize;
    var size := BitmapSize(n);
    forall home: nat | IsBitmapHome(mmap, size, Some(home)) ensures home / PAGE_SIZE + PagesFor(size) <= n {
      PlaceIsEntry(mmap, size, home);
      var e :| e in mmap && AnyRoom(e, size) && e.baseLow == home;
      AlignedEntryEnds(mmap, e, top);
      RoomInPages(home, e.lengthLow, size, top);
    }
  }

  /** And they go to bytes that exist when the memory of the map does. */
  lemma AlignedMapMarks(mmap: seq<Entry>, length: nat)
    requires AlignedMap(mmap) && forall e :: e in mmap && e.Usable() ==> e.baseLow + e.lengthLow <= length
    ensures MarksInMemory(mmap, length)
  {
    hide IsBitmapHome;
    forall n: nat, home: nat | TopPages(mmap, n) && IsBitmapHome(mmap, BitmapSize(n), Some(home))
      ensures home + LastMark(home, n) / 8 < length
    {
      PlaceIsEntry(mmap, BitmapSize(n), home);
      var e :| e in mmap && AnyRoom(e, BitmapSize(n)) && e.baseLow == home;
      EntryHasPages(mmap, e, n);
      AlignedMapFits(mmap, n);
    }
  }

  lemma EntryHasPages(mmap: seq<Entry>, e: Entry, n: nat)
    requires AlignedMap(mmap) && TopPages(mmap, n) && e in mmap && e.Usable() && e.baseLow > 0
    ensures n > 0
  {
    var top: nat :| IsTop(mmap, top) && n == top / PAGE_SIZE;
    AlignedEntryEnds(mmap, e, top);
  }

  lemma AlignedEntryEnds(mmap: seq<Entry>, e: Entry, top: nat)
    requires AlignedMap(mmap) && IsTop(mmap, top) && e in mmap && e.Usable()
    ensures e.baseLow % PAGE_SIZE == e.lengthLow % PAGE_SIZE == 0 && e.baseLow + e.lengthLow == e.End() <= top
  {
    hide Entry.End;
    WholeEnd(e);
  }

  lemma RoomInPages(base: nat, length: nat, size: nat, top: nat)
    requires base % PAGE_SIZE == length % PAGE_SIZE == 0 && size <= length && base + length <= top
    ensures base / PAGE_SIZE + PagesFor(size) <= top / PAGE_SIZE
  {
    assert PagesFor(size) <= length / PAGE_SIZE;
  }

  /** The allocator: its variables, and all of memory, in which its bitmap lies at `home`. */
  class Allocator {
    const mem: array<byte>
    var home: nat
    var maxPages: nat
    var lastFreePage: nat

    constructor (mem: array<byte>)
      ensures this.mem == mem && home == maxPages == lastFreePage == 0
    {
      this.mem := mem;
      home, maxPages, lastFreePage := 0, 0, 0;
    }

    ghost predicate Valid()
      reads this
    {
      && maxPages < 0x10_0000
      && home + BitmapSize(maxPages) <= mem.Length
      && lastFreePage <= maxPages
    }

    ghost function State(): (st: AllocState)
      requires Valid()
      reads this, mem
      ensures st.Valid() && |st.used| == maxPages && st.hint == lastFreePage
    {
      AllocState(PagesIn(mem[..], home, maxPages), lastFreePage)
    }

    /** BITMAP_SET on the bitmap itself. */
    method SetPage(bit: nat)
      requires Valid() && home + bit / 8 < mem.Length
      modifies mem
      ensures Valid()
      ensures State().used == if bit < maxPages then old(State().used)[bit := true] else old(State().used)
      ensures MarksBehind(old(mem[..]), mem[..], home, BitmapSize(maxPages), bit, 1)
    {
      ghost var before := mem[..];
      var b := SetBit(mem[home + bit / 8], bit % 8);
      SetInMemory(before, home, maxPages, bit, b);
      mem[home + bit / 8] := b;
      assert mem[..] == before[home + bit / 8 := b];
      OneMark(before, home, BitmapSize(maxPages), bit, b);
    }

    /** BITMAP_CLEAR on the bitmap itself. */
    method ClearPage(bit: nat)
      requires Valid() && bit < maxPages
      modifies mem
      ensures Valid() && State().used == old(State().used)[bit := false]
      ensures SameOutside(old(mem[..]), mem[..], home, BitmapSize(maxPages))
    {
      ghost var before := mem[..];
      var b := ClearBit(mem[home + bit / 8], bit % 8);
      ClearInMemory(before, home, maxPages, bit, b);
      mem[home + bit / 8] := b;
      assert mem[..] == before[home + bit / 8 := b];
    }

    /** The marking loop that ends both passes of an allocation. */
    method SetPages(start: nat, n: nat)
      requires Valid() && (n > 0 ==> home + (start + n - 1) / 8 < mem.Length)
      modifies mem
      ensures Valid() && State().used == Mark(old(State().used), start, n, true)
      ensures MarksBehind(old(mem[..]), mem[..], home, BitmapSize(maxPages), start, n)
    {
      hide MarksBehind, PagesIn;
      ghost var before := mem[..];
      NoMarks(before, home, BitmapSize(maxPages), start);
      for j := 0 to n
        invariant State().used == Mark(old(State().used), start, j, true)
        invariant MarksBehind(before, mem[..], home, BitmapSize(maxPages), start, j)
      {
        ghost var mid := mem[..];
        SetPage(start + j);
        MoreMarks(before, mid, mem[..], home, BitmapSize(maxPages), start, j);
      }
    }

    /** The loop that clears the pages of one usable entry. */
    method FreeEntry(e: Entry)
      requires Valid()
      modifies mem
      ensures Valid()
      ensures State().used == Mark(old(State().used), e.FirstPage(), e.PageCount(), false)
      ensures SameOutside(old(mem[..]), mem[..], home, BitmapSize(maxPages))
    {
      for j := 0 to e.PageCount()
        invariant State().used == Mark(old(State().used), e.FirstPage(), j, false)
        invariant SameOutside(old(mem[..]), mem[..], home, BitmapSize(maxPages))
      {
        if e.FirstPage() + j < maxPages {
          ClearPage(e.FirstPage() + j);
        }
      }
    }

    /** Mark usable regions as free. */
    method FreeUsable(mmap: seq<Entry>)
      requires Valid()
      modifies mem
      ensures Valid()
      ensures forall p: nat :: p < maxPages ==> State().used[p] == (old(State().used)[p] && !Covered(mmap, p))
      ensures SameOutside(old(mem[..]), mem[..], home, BitmapSize(maxPages))
    {
      for i := 0 to |mmap|
        invariant forall p: nat :: p < maxPages ==> State().used[p] == (old(State().used)[p] && !Covered(mmap[..i], p))
        invariant SameOutside(old(mem[..]), mem[..], home, BitmapSize(maxPages))
      {
        CoveredOneMore(mmap, i);
        if mmap[i].Usable() {
          FreeEntry(mmap[i]);
        }
      }
      assert mmap[..|mmap|] == mmap;
    }

    /** Every page reserved. */
    method ReserveAll()
      requires Valid()
      modifies mem
      ensures Valid()
      ensures forall p :: 0 <= p < maxPages ==> State().used[p]
      ensures SameOutside(old(mem[..]), mem[..], home, BitmapSize(maxPages))
    {
      for i := 0 to BitmapSize(maxPages)
        invariant forall k :: home <= k < home + i ==> mem[k] == 0xFF
        invariant forall k :: 0 <= k < mem.Length && !(home <= k < home + i) ==> mem[k] == old(mem[k])
      {
        mem[home + i] := 0xFF;
      }
      FullInMemory(mem[..], home, maxPages);
    }

    /** The marking part of pmm_init, once a place for the bitmap is known. */
    method BuildMap(mmap: seq<Entry>)
      requires Valid() && home + LastMark(home, maxPages) / 8 < mem.Length
      modifies mem
      ensures Valid() && IsInitialMap(mmap, home, State().used)
      ensures InitMarks(old(mem[..]), mem[..], home, maxPages)
    {
      hide PagesIn, MarksBehind;
      ghost var before := mem[..];
      ReserveAll();
      FreeUsable(mmap);
      ghost var cleared := mem[..];
      var bitmapPages := BitmapSize(maxPages) / PAGE_SIZE;
      if BitmapSize(maxPages) % PAGE_SIZE != 0 {
        bitmapPages := bitmapPages + 1;
      }
      SetPages(home / PAGE_SIZE, bitmapPages);
      ghost var marked := mem[..];
      SetPage(0);
      AllMarks(before, cleared, marked, mem[..], home, maxPages);
    }

    /** The allocator has started up on a memory map: its bitmap has its place, and marks as free
        what is usable, and the hint is 0. */
    ghost predicate Started(mmap: seq<Entry>)
      reads this, mem
    {
      && Valid() && maxPages * PAGE_SIZE <= mem.Length
      && IsStart(mmap, home, State().used) && State().hint == 0
    }

    /** pmm_init, on an allocator whose hint is still 0, in a machine that has the memory its map
        calls usable, and the bytes that the marks for the bitmap's own pages go to: they need not
        be bytes of the bitmap. */
    method Init(mmap: seq<Entry>) returns (outcome: InitOutcome)
      requires lastFreePage == 0 && MarksInMemory(mmap, mem.Length)
      requires forall e :: e in mmap && e.Usable() ==> e.End() <= mem.Length && e.baseLow + e.lengthLow <= mem.Length
      modifies this`home, this`maxPages, mem
      ensures match outcome
              case NoUsableMemory => IsTop(mmap, 0) && mem[..] == old(mem[..])
              case NoRoomForBitmap =>
                && TopPages(mmap, maxPages) && IsBitmapHome(mmap, BitmapSize(maxPages), None)
                && mem[..] == old(mem[..])
              case Ready =>
                && Valid() && TopPages(mmap, maxPages) && InitMarks(old(mem[..]), mem[..], home, maxPages)
                && (maxPages > 0 ==> Started(mmap))
                && (HomeFits(mmap, maxPages) ==> SameOutside(old(mem[..]), mem[..], home, BitmapSize(maxPages)))
    {
      hide PagesIn, InitMarks, IsInitialMap, IsBitmapHome, HomeFits, SameOutside;
      var maxAddr := FindTop(mmap);
      if maxAddr == 0 {
        return NoUsableMemory;
      }
      maxPages := maxAddr / PAGE_SIZE;
      assert TopPages(mmap, maxPages);
      var bitmapSize := maxPages / 8;
      if maxPages % 8 != 0 {
        bitmapSize := bitmapSize + 1;
      }
      var place := PlaceBitmap(mmap, bitmapSize);
      if place.None? {
        return NoRoomForBitmap;
      }
      Settle(mmap, place.value);
      return Ready;
    }

    /** The rest of pmm_init, once a place for the bitmap is found. */
    method Settle(mmap: seq<Entry>, place: nat)
      requires lastFreePage == 0 && maxPages < 0x10_0000 && TopPages(mmap, maxPages)
      requires maxPages * PAGE_SIZE <= mem.Length && IsBitmapHome(mmap, BitmapSize(maxPages), Some(place))
      requires MarksInMemory(mmap, mem.Length)
      requires forall e :: e in mmap && e.Usable() ==> e.baseLow + e.lengthLow <= mem.Length
      modifies this`home, mem
      ensures Valid() && home == place && (maxPages > 0 ==> Started(mmap))
      ensures InitMarks(old(mem[..]), mem[..], home, maxPages)
      ensures HomeFits(mmap, maxPages) ==> SameOutside(old(mem[..]), mem[..], home, BitmapSize(maxPages))
    {
      hide PagesIn, InitMarks, IsInitialMap, SameOutside;
      PlaceIsEntry(mmap, BitmapSize(maxPages), place);
      ghost var before := mem[..];
      home := place;
      BuildMap(mmap);
      if HomeFits(mmap, maxPages) {
        FittingMarks(before, mem[..], home, maxPages);
      }
    }

    /** BITMAP_TEST on the bitmap itself. */
    predicate Test(bit: nat): (r: bool)
      requires Valid() && bit < maxPages
      reads this, mem
      ensures r == State().used[bit]
    {
      PageInMemory(mem[..], home, maxPages, bit);
      TestBit(mem[home + bit / 8], bit % 8)
    }

    /** The comparison of one bitmap word with all ones. */
    predicate WordIsFull(w: nat): (r: bool)
      requires Valid() && w < maxPages / 32
      reads this, mem
      ensures r ==> forall p :: 32 * w <= p < 32 * w + 32 ==> State().used[p]
    {
      FullWordMeansReserved(mem[home..home + BitmapSize(maxPages)], maxPages, w);
      WordAt(mem[home..home + BitmapSize(maxPages)], w) == 0xFFFF_FFFF
    }

    /** The inner loop of a pass: step over whole words of reserved pages inside [i, limit). */
    method SkipFullWords(i: nat, limit: nat, ghost lo: nat, ghost n: nat) returns (k: nat)
      requires Valid() && i % 32 == 0
      requires limit <= maxPages && Scanned(State().used, lo, limit, n, i, 0)
      ensures i <= k <= limit && Scanned(State().used, lo, limit, n, k, 0)
    {
      hide WordIsFull;
      k := i;
      while k / 32 < maxPages / 32 && k + 32 <= limit && WordIsFull(k / 32)
        invariant i <= k <= limit && k % 32 == 0 && Scanned(State().used, lo, limit, n, k, 0)
        decreases limit - k
      {
        ScanSkip(State().used, lo, limit, n, k, k + 32);
        k := k + 32;
      }
    }

    /** One pass over [lo, limit). Of the two passes only the second compares
        i + 32 with its limit; in the first, whose limit is `maxPages`, the comparison with
        the word count already implies it. */
    method Scan(lo: nat, limit: nat, n: nat) returns (r: Option<nat>)
      requires Valid() && n >= 1 && lo <= limit <= maxPages
      ensures r == FirstRun(State().used, lo, limit, n)
    {
      ghost var used := State().used;
      var consecutive, start, i := 0, 0, lo;
      while i < limit
        invariant Scanned(used, lo, limit, n, i, consecutive)
        invariant consecutive > 0 ==> start == i - consecutive
        decreases limit - i
      {
        if i % 32 == 0 && consecutive == 0 {
          i := SkipFullWords(i, limit, lo, n);
          if i >= limit {
            break;
          }
        }
        if !Test(i) {
          ScanFree(used, lo, limit, n, i, consecutive);
          if consecutive == 0 {
            start := i;
          }
          consecutive := consecutive + 1;
          if consecutive == n {
            return Some(start);
          }
        } else {
          ScanReserved(used, lo, limit, n, i, consecutive);
          consecutive := 0;
        }
        i := i + 1;
      }
      ScanExhausted(used, lo, limit, n, consecutive);
      return None;
    }

    /** pmm_alloc: the address of `n` pages, or 0. */
    method Alloc(n: nat) returns (p: nat)
      requires Valid()
      modifies this`lastFreePage, mem
      ensures Valid()
      ensures var (st, r) := Allocated(old(State()), n);
              State() == st && p == AddressOf(r) && (r.None? ==> mem[..] == old(mem[..]))
      ensures SameOutside(old(mem[..]), mem[..], home, BitmapSize(maxPages))
    {
      hide MarksBehind, PagesIn;
      ghost var before := mem[..];
      if n == 0 {
        return 0;
      }
      FirstRunIsLowest(State().used, lastFreePage, maxPages, n);
      FirstRunIsLowest(State().used, 0, lastFreePage, n);
      var r := Scan(lastFreePage, maxPages, n);
      if r.None? && lastFreePage > 0 {
        var searchLimit := lastFreePage;
        lastFreePage := 0;
        r := Scan(0, searchLimit, n);
      }
      match r
      case Some(start) =>
        SetPages(start, n);
        MarksInside(before, mem[..], home, BitmapSize(maxPages), start, n);
        lastFreePage := start + n;
        return start * PAGE_SIZE;
      case None =>
        return 0;
    }

    /** pmm_free: give back `n` pages from address `p` on. */
    method Free(p: nat, n: nat)
      requires Valid()
      modifies this`lastFreePage, mem
      ensures Valid()
      ensures State() == if p == 0 then old(State()) else Freed(old(State()), p / PAGE_SIZE, n)
      ensures SameOutside(old(mem[..]), mem[..], home, BitmapSize(maxPages)) && (p == 0 ==> mem[..] == old(mem[..]))
    {
      if p == 0 {
        return;
      }
      var start := p / PAGE_SIZE;
      for i := 0 to n
        invariant lastFreePage == old(lastFreePage)
        invariant State().used == Mark(old(State().used), start, i, false)
        invariant SameOutside(old(mem[..]), mem[..], home, BitmapSize(maxPages))
      {
        if start + i < maxPages {
          ClearPage(start + i);
        }
      }
      if start < lastFreePage {
        lastFreePage := start;
      }
    }
  }
}
