/** The BIOS memory map, and what the allocator makes of it at start-up. */
module MemoryMap {
  import opened Options
  import opened Words

  const PAGE_SIZE: nat := 4096

  datatype Entry = Entry(baseLow: uint32, baseHigh: uint32, lengthLow: uint32, lengthHigh: uint32, kind: uint32) {
    predicate Usable() {
      kind == 1
    }

    /** The end of the entry as 32-bit arithmetic computes it. */
    function End(): uint32 {
      var base := (baseLow + baseHigh) % WORD_LIMIT;
      var length := (lengthLow + lengthHigh) % WORD_LIMIT;
      (base + length) % WORD_LIMIT
    }

    /** Pages from FirstPage() on, PageCount() of them, are cleared for a usable entry. */
    function FirstPage(): nat {
      baseLow / PAGE_SIZE
    }

    function PageCount(): nat {
      lengthLow / PAGE_SIZE
    }

    /** Page p is one of those. */
    predicate HasPage(p: nat) {
      FirstPage() <= p < FirstPage() + PageCount()
    }

    /** Byte address `a` lies in the entry, whose base and length are 64-bit numbers. */
    predicate Holds(a: nat) {
      var base := baseHigh * WORD_LIMIT + baseLow;
      base <= a < base + lengthHigh * WORD_LIMIT + lengthLow
    }

    /** The entry has no whole page, or starts at a page boundary below 4 GB. */
    predicate StartsAtPage() {
      PageCount() == 0 || (baseHigh == 0 && baseLow % PAGE_SIZE == 0)
    }
  }

  /** That is when, and only when, the pages that are cleared for an entry lie in it. */
  lemma PagesLieInEntry(e: Entry)
    ensures e.StartsAtPage() <==> forall a: nat :: e.HasPage(a / PAGE_SIZE) ==> e.Holds(a)
  {
    if e.StartsAtPage() {
      forall a: nat | e.HasPage(a / PAGE_SIZE) ensures e.Holds(a) {
        ByteOfPages(e, a);
      }
    } else {
      var a := e.FirstPage() * PAGE_SIZE;
      assert a / PAGE_SIZE == e.FirstPage() && e.HasPage(a / PAGE_SIZE);
      assert !e.Holds(a);
    }
  }

  lemma ByteOfPages(e: Entry, a: nat)
    requires e.baseHigh == 0 && e.baseLow % PAGE_SIZE == 0 && e.HasPage(a / PAGE_SIZE)
    ensures e.Holds(a)
  {
  }

  /** The end is the sum of all four words, modulo 2^32. */
  lemma EndIsSum(e: Entry)
    ensures e.End() == (e.baseLow + e.baseHigh + e.lengthLow + e.lengthHigh) % WORD_LIMIT
  {
    AddMod(e.baseLow + e.baseHigh, e.lengthLow + e.lengthHigh);
  }

  lemma AddMod(a: nat, b: nat)
    ensures (a % WORD_LIMIT + b % WORD_LIMIT) % WORD_LIMIT == (a + b) % WORD_LIMIT
  {
    var q := a / WORD_LIMIT + b / WORD_LIMIT;
    assert a + b == (a % WORD_LIMIT + b % WORD_LIMIT) + WORD_LIMIT * q;
  }

  /** The entry's whole pages are counted from the one its base lies in: none is left out. */
  lemma PagesAreCounted(e: Entry)
    ensures e.FirstPage() * PAGE_SIZE <= e.baseLow < (e.FirstPage() + 1) * PAGE_SIZE
    ensures e.PageCount() * PAGE_SIZE <= e.lengthLow < (e.PageCount() + 1) * PAGE_SIZE
  {
  }

  /** Every byte of page p lies in the entry. */
  ghost predicate HoldsPage(e: Entry, p: nat) {
    forall a: nat :: a / PAGE_SIZE == p ==> e.Holds(a)
  }

  /** A page-aligned entry with zero high words, whatever its length. */
  predicate LowAligned(e: Entry) {
    e.baseHigh == e.lengthHigh == 0 && e.baseLow % PAGE_SIZE == 0
  }

  /** The pages cleared for such an entry are exactly the ones that lie in it wholly. */
  lemma HasPageMeans(e: Entry, p: nat)
    requires LowAligned(e)
    ensures e.HasPage(p) <==> HoldsPage(e, p)
  {
    if e.HasPage(p) {
      forall a: nat | a / PAGE_SIZE == p ensures e.Holds(a) {
        ByteOfPages(e, a);
      }
    }
    if HoldsPage(e, p) {
      var first, last := p * PAGE_SIZE, p * PAGE_SIZE + (PAGE_SIZE - 1);
      assert first / PAGE_SIZE == p && last / PAGE_SIZE == p;
      assert e.Holds(first) && e.Holds(last);
      PagesBetween(e.baseLow, e.lengthLow, p);
    }
  }

  lemma PagesBetween(base: nat, length: nat, p: nat)
    requires base % PAGE_SIZE == 0 && base <= p * PAGE_SIZE && (p + 1) * PAGE_SIZE <= base + length
    ensures base / PAGE_SIZE <= p < base / PAGE_SIZE + length / PAGE_SIZE
  {
  }

  /** Every usable entry starts at a page boundary below 4 GB, if it has a whole page. */
  predicate StartAtPages(mmap: seq<Entry>) {
    forall e :: e in mmap && e.Usable() ==> e.StartsAtPage()
  }

  /** `top` is the highest end of a usable entry, 0 when there is none. */
  ghost predicate IsTop(mmap: seq<Entry>, top: nat) {
    && (forall e :: e in mmap && e.Usable() ==> e.End() <= top)
    && (top == 0 || exists e :: e in mmap && e.Usable() && e.End() == top)
  }

  /** Page `p` is covered by a usable entry. */
  ghost predicate Covered(mmap: seq<Entry>, p: nat) {
    exists e :: e in mmap && e.Usable() && e.HasPage(p)
  }

  predicate HighRoom(e: Entry, size: nat) {
    e.Usable() && e.lengthLow >= size && e.baseLow >= 0x10_0000
  }

  predicate AnyRoom(e: Entry, size: nat) {
    e.Usable() && e.lengthLow >= size && e.baseLow > 0
  }

  /** Where a bitmap of `size` bytes goes: the first usable entry with room at or above
      1 MB, else the first with room that does not start at 0. */
  ghost predicate IsBitmapHome(mmap: seq<Entry>, size: nat, home: Option<nat>) {
    match home
    case None => forall e :: e in mmap ==> !AnyRoom(e, size)
    case Some(b) =>
      exists k: nat :: k < |mmap| && mmap[k].baseLow == b && IsFirstRoom(mmap, size, k)
  }

  ghost predicate IsFirstRoom(mmap: seq<Entry>, size: nat, k: nat)
    requires k < |mmap|
  {
    if exists e :: e in mmap && HighRoom(e, size)
    then HighRoom(mmap[k], size) && forall j :: 0 <= j < k ==> !HighRoom(mmap[j], size)
    else AnyRoom(mmap[k], size) && forall j :: 0 <= j < k ==> !AnyRoom(mmap[j], size)
  }

  /** Pages needed for `size` bytes. */
  function PagesFor(size: nat): (n: nat)
    ensures n * PAGE_SIZE >= size && (size > 0 ==> (n - 1) * PAGE_SIZE < size)
  {
    size / PAGE_SIZE + if size % PAGE_SIZE != 0 then 1 else 0
  }

  /** Address `a` lies in the n pages that start at page s. */
  predicate InPages(s: nat, n: nat, a: nat) {
    s * PAGE_SIZE <= a < (s + n) * PAGE_SIZE
  }

  method FindTop(mmap: seq<Entry>) returns (top: uint32)
    ensures IsTop(mmap, top)
  {
    top := 0;
    for i := 0 to |mmap|
      invariant IsTop(mmap[..i], top)
    {
      var e := mmap[i];
      assert mmap[..i + 1] == mmap[..i] + [e];
      if e.Usable() && e.End() > top {
        top := e.End();
      }
    }
    assert mmap[..|mmap|] == mmap;
  }

  /** In terms of the raw words: the place is the base of the first usable entry from 1 MB on that is
      long enough, without any such entry of the first that is and does not start at 0, and without
      that there is none. */
  lemma HomeMeans(mmap: seq<Entry>, size: nat, home: Option<nat>)
    requires IsBitmapHome(mmap, size, home)
    ensures home == None <==> forall e :: e in mmap && LongEnough(e, size) ==> e.baseLow == 0
    ensures home.Some? ==>
              exists k: nat :: k < |mmap| && mmap[k].baseLow == home.value && FirstLongEnough(mmap, size, k)
  {
    match home
    case None =>
      assert forall e :: e in mmap ==> !AnyRoom(e, size);
    case Some(b) =>
      var k: nat :| k < |mmap| && mmap[k].baseLow == b && IsFirstRoom(mmap, size, k);
      assert mmap[k] in mmap && AnyRoom(mmap[k], size);
      FirstRoomIsFirst(mmap, size, k);
  }

  predicate LongEnough(e: Entry, size: nat) {
    e.kind == 1 && e.lengthLow >= size
  }

  /** Entry k is long enough; if it starts from 1 MB on, it is the first such entry that does, and
      otherwise the first that does not start at 0, and none starts from 1 MB on. */
  ghost predicate FirstLongEnough(mmap: seq<Entry>, size: nat, k: nat)
    requires k < |mmap|
  {
    && LongEnough(mmap[k], size) && mmap[k].baseLow > 0
    && if mmap[k].baseLow >= 0x10_0000
       then forall j: nat :: j < k && LongEnough(mmap[j], size) ==> mmap[j].baseLow < 0x10_0000
       else && (forall j: nat :: j < k && LongEnough(mmap[j], size) ==> mmap[j].baseLow == 0)
            && forall e :: e in mmap && LongEnough(e, size) ==> e.baseLow < 0x10_0000
  }

  lemma FirstRoomIsFirst(mmap: seq<Entry>, size: nat, k: nat)
    requires k < |mmap| && IsFirstRoom(mmap, size, k)
    ensures FirstLongEnough(mmap, size, k)
  {
    assert mmap[k] in mmap;
    forall e | e in mmap && LongEnough(e, size) ensures HighRoom(e, size) <==> e.baseLow >= 0x10_0000 {
    }
    forall j: nat | j < k && LongEnough(mmap[j], size)
      ensures mmap[j].baseLow < 0x10_0000 && (mmap[k].baseLow < 0x10_0000 ==> mmap[j].baseLow == 0)
    {
      assert mmap[j] in mmap && (HighRoom(mmap[j], size) <==> mmap[j].baseLow >= 0x10_0000);
      assert AnyRoom(mmap[j], size) <==> mmap[j].baseLow > 0;
    }
  }

  method PlaceBitmap(mmap: seq<Entry>, size: nat) returns (home: Option<nat>)
    ensures IsBitmapHome(mmap, size, home)
  {
    for i := 0 to |mmap|
      invariant forall j :: 0 <= j < i ==> !HighRoom(mmap[j], size)
    {
      if HighRoom(mmap[i], size) {
        assert IsFirstRoom(mmap, size, i);
        return Some(mmap[i].baseLow);
      }
    }
    for i := 0 to |mmap|
      invariant forall j :: 0 <= j < i ==> !AnyRoom(mmap[j], size)
    {
      if AnyRoom(mmap[i], size) {
        assert IsFirstRoom(mmap, size, i);
        return Some(mmap[i].baseLow);
      }
    }
    return None;
  }
}
