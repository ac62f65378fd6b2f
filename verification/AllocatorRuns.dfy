/** What the allocator guarantees over whole runs of allocations and releases by
    clients that release only blocks they own, each with its own page count. */
module AllocatorRuns {
  import opened Options
  import opened PageRuns
  import opened MemoryMap
  import opened Words
  import opened PageAllocator

  /** A client request: allocate `n` pages, or release the live block that starts at page `s`. */
  datatype Request = Acquire(n: nat) | Release(s: nat)

  /** The allocator together with the blocks handed out and not yet released (start -> length). */
  datatype World = World(alloc: AllocState, live: map<nat, nat>)

  ghost predicate Permitted(w: World, q: Request) {
    q.Release? ==> q.s in w.live
  }

  ghost function After(w: World, q: Request): World
    requires w.alloc.Valid() && Permitted(w, q)
    ensures After(w, q).alloc.Valid()
  {
    match q
    case Acquire(n) =>
      var (st, r) := Allocated(w.alloc, n);
      World(st, if r.Some? then w.live[r.value := n] else w.live)
    case Release(s) =>
      World(Freed(w.alloc, s, w.live[s]), w.live - {s})
  }

  /** A run of requests that are all permitted when their turn comes. */
  ghost predicate Legal(w: World, qs: seq<Request>)
    decreases |qs|
  {
    w.alloc.Valid() && (qs == [] || (Permitted(w, qs[0]) && Legal(After(w, qs[0]), qs[1..])))
  }

  ghost function Final(w: World, qs: seq<Request>): (r: World)
    requires Legal(w, qs)
    ensures r.alloc.Valid()
    decreases |qs|
  {
    if qs == [] then w else Final(After(w, qs[0]), qs[1..])
  }

  /** Page `p` lies in the live block that starts at `s`. */
  ghost predicate InBlock(live: map<nat, nat>, s: nat, p: nat) {
    s in live && s <= p < s + live[s]
  }

  ghost predicate InSomeBlock(live: map<nat, nat>, p: nat) {
    exists s: nat :: InBlock(live, s, p)
  }

  /** Live blocks are non-empty and inside the map, and no page is in two of them. */
  ghost predicate Separate(live: map<nat, nat>, size: nat) {
    && (forall s: nat :: s in live ==> 1 <= live[s] && s + live[s] <= size)
    && (forall s: nat, t: nat, p: nat :: InBlock(live, s, p) && InBlock(live, t, p) ==> s == t)
  }

  /** The reserved pages are exactly the initially reserved ones and, apart from them,
      those of the live blocks. */
  ghost predicate Accounted(initial: seq<bool>, w: World) {
    && w.alloc.Valid() && |w.alloc.used| == |initial|
    && Separate(w.live, |initial|)
    && (forall p: nat :: p < |initial| && initial[p] ==> !InSomeBlock(w.live, p))
    && (forall p: nat :: p < |initial| ==> w.alloc.used[p] == (initial[p] || InSomeBlock(w.live, p)))
  }

  /** An allocation hands out a free run: the lowest one at or above the hint if there is one,
      and otherwise the lowest one wholly below it. */
  lemma AllocationIsLowest(st: AllocState, n: nat)
    requires st.Valid() && n >= 1
    ensures var (st', r) := Allocated(st, n);
            && (r.Some? ==>
                  && IsFreeRun(st.used, r.value, n)
                  && st' == AllocState(Mark(st.used, r.value, n, true), r.value + n) && st'.Valid()
                  && (st.hint <= r.value || r.value + n <= st.hint)
                  && (r.value < st.hint ==> forall t: nat :: st.hint <= t ==> !IsFreeRun(st.used, t, n))
                  && (forall t: nat :: IsFreeRun(st.used, t, n) && t < r.value ==>
                        t < st.hint < t + n || t < st.hint <= r.value))
            && (r.None? ==> st' == AllocState(st.used, 0))
  {
    FirstRunIsLowest(st.used, st.hint, |st.used|, n);
    FirstRunIsLowest(st.used, 0, st.hint, n);
  }

  /** The exact meaning of NULL: every free run of that length straddles the hint. */
  lemma NullMeansStraddling(st: AllocState, n: nat)
    requires st.Valid() && n >= 1
    ensures Allocated(st, n).1.None? <==>
            forall t: nat :: IsFreeRun(st.used, t, n) ==> t < st.hint < t + n
  {
    FirstRunIsLowest(st.used, st.hint, |st.used|, n);
    FirstRunIsLowest(st.used, 0, st.hint, n);
  }

  lemma LiveStartIsReserved(initial: seq<bool>, w: World, s: nat)
    requires Accounted(initial, w)
    ensures s in w.live ==> s < |initial| && w.alloc.used[s]
  {
    if s in w.live {
      assert InBlock(w.live, s, s);
    }
  }

  lemma AcquireAccounted(initial: seq<bool>, w: World, n: nat)
    requires Accounted(initial, w) && n >= 1 && Allocated(w.alloc, n).1.Some?
    ensures Accounted(initial, After(w, Acquire(n)))
  {
    AllocationIsLowest(w.alloc, n);
    var s := Allocated(w.alloc, n).1.value;
    var live' := After(w, Acquire(n)).live;
    forall p: nat | s <= p < s + n ensures !InSomeBlock(w.live, p) {
      assert !w.alloc.used[p];
    }
    LiveStartIsReserved(initial, w, s);
    assert forall t: nat, p: nat :: InBlock(live', t, p) <==> InBlock(w.live, t, p) || (t == s && s <= p < s + n);
    forall p: nat | p < |initial|
      ensures InSomeBlock(live', p) == (InSomeBlock(w.live, p) || s <= p < s + n)
    {
      if s <= p < s + n {
        assert InBlock(live', s, p);
      } else if InSomeBlock(w.live, p) {
        var t: nat :| InBlock(w.live, t, p);
        assert InBlock(live', t, p);
      }
    }
    forall a: nat, b: nat, p: nat | InBlock(live', a, p) && InBlock(live', b, p) ensures a == b {
      assert InBlock(w.live, a, p) ==> InSomeBlock(w.live, p);
      assert InBlock(w.live, b, p) ==> InSomeBlock(w.live, p);
    }
  }

  lemma ReleaseAccounted(initial: seq<bool>, w: World, s: nat)
    requires Accounted(initial, w) && s in w.live
    ensures Accounted(initial, After(w, Release(s)))
  {
    var after := After(w, Release(s));
    assert forall t: nat, p: nat :: InBlock(after.live, t, p) <==> InBlock(w.live, t, p) && t != s;
    forall p: nat | p < |initial|
      ensures InSomeBlock(after.live, p) == (InSomeBlock(w.live, p) && !InBlock(w.live, s, p))
    {
      if InSomeBlock(w.live, p) && !InBlock(w.live, s, p) {
        var t: nat :| InBlock(w.live, t, p);
        assert InBlock(after.live, t, p);
      }
      if InSomeBlock(after.live, p) {
        var t: nat :| InBlock(after.live, t, p);
        assert InBlock(w.live, t, p);
      }
    }
    assert forall p: nat :: p < |initial| && InBlock(w.live, s, p) ==> InSomeBlock(w.live, p);
  }

  /** Conservation: in every run the reserved pages are the initially reserved ones plus
      the pages of the live blocks, which overlap neither one another nor the former. */
  lemma {:induction false} RunsAreAccounted(initial: seq<bool>, w: World, qs: seq<Request>)
    requires Accounted(initial, w) && Legal(w, qs)
    ensures Accounted(initial, Final(w, qs))
    decreases |qs|
  {
    if qs != [] {
      match qs[0] {
        case Acquire(n) =>
          if n >= 1 && Allocated(w.alloc, n).1.Some? {
            AcquireAccounted(initial, w, n);
          }
        case Release(s) => ReleaseAccounted(initial, w, s);
      }
      RunsAreAccounted(initial, After(w, qs[0]), qs[1..]);
    }
  }

  /** Byte address `a` lies in the block of `live` that starts at page `s`. */
  ghost predicate Owns(live: map<nat, nat>, s: nat, a: nat) {
    s in live && s * PAGE_SIZE <= a < (s + live[s]) * PAGE_SIZE
  }

  /** The world after start-up. */
  ghost function StartWorld(initial: seq<bool>): World {
    World(AllocState(initial, 0), map[])
  }

  lemma StartIsAccounted(initial: seq<bool>)
    ensures Accounted(initial, StartWorld(initial))
  {
  }

  /** A byte of a block handed out at any point after start-up lies below 4 GB, not in page 0 (so
      the block's address is no NULL), and in no other live block. It lies outside the bitmap, if
      the bitmap's place is safe, and in usable memory, if usable entries start at pages. */
  lemma BlocksAreSafe(mmap: seq<Entry>, home: nat, initial: seq<bool>, qs: seq<Request>, s: nat, a: nat)
    requires IsStart(mmap, home, initial) && Legal(StartWorld(initial), qs)
    requires Owns(Final(StartWorld(initial), qs).live, s, a)
    ensures PAGE_SIZE <= a < WORD_LIMIT
    ensures forall t: nat :: Owns(Final(StartWorld(initial), qs).live, t, a) ==> t == s
    ensures SafeHome(mmap, home, |initial|) ==> !(home <= a < home + BitmapSize(|initial|))
    ensures StartAtPages(mmap) ==> exists e :: e in mmap && e.Usable() && e.Holds(a)
  {
    StartIsAccounted(initial);
    RunsAreAccounted(initial, StartWorld(initial), qs);
    var live, p := Final(StartWorld(initial), qs).live, a / PAGE_SIZE;
    forall t: nat | Owns(live, t, a) ensures InBlock(live, t, p) {
      PageOfByte(t, live[t], a);
    }
    assert InSomeBlock(live, p);
    assert p < |initial| && !initial[p];
    TopBelow4GB(mmap, |initial|);
    BitmapIsReserved(mmap, home, initial);
    if home <= a < home + BitmapSize(|initial|) {
      BytesInPages(home, BitmapSize(|initial|), a);
    }
    if StartAtPages(mmap) {
      var e :| e in mmap && e.Usable() && e.HasPage(p);
      PagesLieInEntry(e);
    }
  }

  lemma BytesInPages(home: nat, size: nat, a: nat)
    requires home <= a < home + size
    ensures HoldsBitmap(home, size, a / PAGE_SIZE)
  {
  }

  lemma PageOfByte(s: nat, n: nat, a: nat)
    requires s * PAGE_SIZE <= a < (s + n) * PAGE_SIZE
    ensures s <= a / PAGE_SIZE < s + n
  {
  }

  /** Releasing a block just allocated puts every page back and leaves the hint at the block. */
  lemma AllocateThenFree(st: AllocState, n: nat)
    requires st.Valid() && n >= 1 && Allocated(st, n).1.Some?
    ensures var (st', r) := Allocated(st, n); Freed(st', r.value, n) == AllocState(st.used, r.value)
  {
    AllocationIsLowest(st, n);
    var (st', r) := Allocated(st, n);
    assert Freed(st', r.value, n).used == st.used;
  }

  /** After a failure nothing changes but the hint, which is then 0; from there failure means
      that no run is left anywhere. So two failures in a row prove there is none. */
  lemma SecondFailureIsFinal(st: AllocState, m: nat, n: nat)
    requires st.Valid() && m >= 1 && n >= 1
    requires Allocated(st, m).1.None?
    ensures var st' := Allocated(st, m).0;
            && st' == AllocState(st.used, 0)
            && (Allocated(st', n).1.None? <==> forall t: nat :: !IsFreeRun(st.used, t, n))
  {
    NullMeansStraddling(AllocState(st.used, 0), n);
    if Allocated(Allocated(st, m).0, n).1.None? {
      forall t: nat ensures !IsFreeRun(st.used, t, n) {
      }
    }
  }

  /** No page below the hint is free. */
  ghost predicate PackedBelowHint(st: AllocState) {
    st.Valid() && forall p :: 0 <= p < st.hint ==> st.used[p]
  }

  /** In such a state a one-page request is served first-fit: it gets the lowest free page
      of the whole memory, and is refused only when memory is full. */
  lemma PackedIsFirstFit(st: AllocState)
    requires PackedBelowHint(st)
    ensures var (st', r) := Allocated(st, 1);
            && PackedBelowHint(st')
            && (r.Some? ==> r.value < |st.used| && !st.used[r.value] && forall p :: 0 <= p < r.value ==> st.used[p])
            && (r.None? <==> forall p :: 0 <= p < |st.used| ==> st.used[p])
  {
    AllocationIsLowest(st, 1);
    NullMeansStraddling(st, 1);
    assert forall p: nat :: p < |st.used| ==> IsFreeRun(st.used, p, 1) == !st.used[p];
  }

  /** Runs whose allocations ask for one page each, whatever they release, never leave a
      free page below the hint. */
  lemma {:induction false} SinglePageRunsStayPacked(w: World, qs: seq<Request>)
    requires Legal(w, qs) && PackedBelowHint(w.alloc)
    requires forall q :: q in qs && q.Acquire? ==> q.n == 1
    ensures PackedBelowHint(Final(w, qs).alloc)
    decreases |qs|
  {
    if qs != [] {
      assert qs[0] in qs;
      PackedIsFirstFit(w.alloc);
      SinglePageRunsStayPacked(After(w, qs[0]), qs[1..]);
    }
  }

  lemma LowestIsAllocated(st: AllocState, n: nat, s: nat)
    requires st.Valid() && n >= 1 && st.hint <= s && IsFreeRun(st.used, s, n)
    requires forall t: nat :: st.hint <= t < s ==> !IsFreeRun(st.used, t, n)
    ensures Allocated(st, n) == (AllocState(Mark(st.used, s, n, true), s + n), Some(s))
  {
    FirstRunIsLowest(st.used, st.hint, |st.used|, n);
  }

  lemma FirstStep(w: World, next: World, q: Request, qs: seq<Request>)
    requires w.alloc.Valid() && Permitted(w, q) && After(w, q) == next && Legal(next, qs)
    ensures Legal(w, [q] + qs) && Final(w, [q] + qs) == Final(next, qs)
  {
    assert ([q] + qs)[1..] == qs;
  }

  /** A machine with 20 KB of usable memory from 4 KB on: page 1 holds the bitmap. */
  const SMALL_MAP: seq<Entry> := [Entry(0x1000, 0, 0x5000, 0, 1)]

  /** The worlds of a run on that machine. */
  ghost function Scene(k: nat): World {
    if k == 0 then World(AllocState([true, true, false, false, false, false], 0), map[])
    else if k == 1 then World(AllocState([true, true, true, false, false, false], 3), map[2 := 1])
    else if k == 2 then World(AllocState([true, true, true, true, false, false], 4), map[2 := 1, 3 := 1])
    else if k == 3 then World(AllocState([true, true, false, true, false, false], 2), map[3 := 1])
    else if k == 4 then World(AllocState([true, true, false, true, true, true], 6), map[3 := 1, 4 := 2])
    else World(AllocState([true, true, false, false, true, true], 3), map[4 := 2])
  }

  const SCRIPT: seq<Request> := [Acquire(1), Acquire(1), Release(2), Acquire(2), Release(3)]

  lemma SceneStep(k: nat)
    requires k < 5
    ensures Scene(k).alloc.Valid() && Permitted(Scene(k), SCRIPT[k]) && After(Scene(k), SCRIPT[k]) == Scene(k + 1)
  {
    var st := Scene(k).alloc;
    if k == 0 {
      assert st.used[0] && st.used[1];
      LowestIsAllocated(st, 1, 2);
    } else if k == 1 {
      LowestIsAllocated(st, 1, 3);
    } else if k == 3 {
      assert st.used[3];
      LowestIsAllocated(st, 2, 4);
    }
  }

  lemma {:induction false} SceneReached(k: nat)
    requires k <= 5
    ensures Scene(k).alloc.Valid() && Legal(Scene(k), SCRIPT[k..]) && Final(Scene(k), SCRIPT[k..]) == Scene(5)
    decreases 5 - k
  {
    if k < 5 {
      SceneStep(k);
      SceneReached(k + 1);
      FirstStep(Scene(k), Scene(k + 1), SCRIPT[k], SCRIPT[k + 1..]);
      assert [SCRIPT[k]] + SCRIPT[k + 1..] == SCRIPT[k..];
    }
  }

  /** The first scene is what start-up makes of the map. */
  lemma SmallMapStarts()
    ensures HomeFits(SMALL_MAP, 6) && IsStart(SMALL_MAP, 0x1000, Scene(0).alloc.used)
  {
    var e := SMALL_MAP[0];
    assert e in SMALL_MAP && e.Usable() && e.End() == 6 * PAGE_SIZE;
    assert IsTop(SMALL_MAP, 6 * PAGE_SIZE) && 6 * PAGE_SIZE / PAGE_SIZE == 6;
    assert IsFirstRoom(SMALL_MAP, BitmapSize(6), 0);
    assert e.FirstPage() == 1 && e.PageCount() == 5;
    assert PagesFor(BitmapSize(6)) == 1;
    forall p: nat | p < 6 ensures Scene(0).alloc.used[p] == (p == 0 || !Covered(SMALL_MAP, p) || 1 <= p < 2) {
      assert p >= 1 ==> e.HasPage(p);
    }
  }

  /** One failure does not prove that: on a machine just started up, the run of `SCRIPT` ends with
      pages 2 and 3 free and a request for two pages refused. */
  lemma FirstFailureIsNotFinal()
    ensures var initial := [true, true, false, false, false, false];
            var w := StartWorld(initial);
            && HomeFits(SMALL_MAP, |initial|) && IsStart(SMALL_MAP, 0x1000, initial)
            && Legal(w, SCRIPT)
            && Allocated(Final(w, SCRIPT).alloc, 2).1 == None
            && IsFreeRun(Final(w, SCRIPT).alloc.used, 2, 2)
  {
    hide IsStart, HomeFits, Legal, Final;
    SmallMapStarts();
    SceneReached(0);
    LastSceneStraddles();
    assert SCRIPT[0..] == SCRIPT;
  }

  lemma LastSceneStraddles()
    ensures var st := Scene(5).alloc; st.Valid() && Allocated(st, 2).1 == None && IsFreeRun(st.used, 2, 2)
  {
    var st := Scene(5).alloc;
    NullMeansStraddling(st, 2);
    assert st.used[0] && st.used[1] && st.used[4] && st.used[5];
  }

  // ----- the bitmap among the pages it describes

  /** Page 0 and the pages of the map that hold the bitmap at `home` are reserved. */
  ghost predicate HomeReserved(st: AllocState, home: nat) {
    && st.Valid() && |st.used| > 0 && st.used[0]
    && forall p: nat :: p < |st.used| && HoldsBitmap(home, BitmapSize(|st.used|), p) ==> st.used[p]
  }

  /** With the bitmap in a safe place that is so after start-up and any run of requests. */
  lemma RunsKeepHome(mmap: seq<Entry>, home: nat, initial: seq<bool>, qs: seq<Request>)
    requires IsStart(mmap, home, initial) && SafeHome(mmap, home, |initial|) && Legal(StartWorld(initial), qs)
    ensures HomeReserved(Final(StartWorld(initial), qs).alloc, home)
  {
    StartIsAccounted(initial);
    RunsAreAccounted(initial, StartWorld(initial), qs);
    BitmapIsReserved(mmap, home, initial);
    assert initial[0];
  }

  /** Then an allocated block lies in the memory of the map, and clear of the bitmap. */
  lemma BlockMissesBitmap(st: AllocState, home: nat, n: nat)
    requires HomeReserved(st, home) && Allocated(st, n).1.Some?
    ensures var s := Allocated(st, n).1.value;
            && s > 0 && n > 0 && s + n <= |st.used|
            && Apart(s * PAGE_SIZE, n * PAGE_SIZE, home, BitmapSize(|st.used|))
  {
    AllocationIsLowest(st, n);
    var s, size := Allocated(st, n).1.value, BitmapSize(|st.used|);
    assert !st.used[s];
    if !Apart(s * PAGE_SIZE, n * PAGE_SIZE, home, size) {
      var a := if s * PAGE_SIZE < home then home else s * PAGE_SIZE;
      PageOfByte(s, n, a);
      BytesInPages(home, size, a);
    }
  }

  /** From the code's own start-up on: whatever is requested then, every block is safe and the
      bitmap stays reserved. */
  lemma AfterInit(a: Allocator, mmap: seq<Entry>, qs: seq<Request>)
    requires a.Started(mmap) && Legal(World(a.State(), map[]), qs)
    ensures var live := Final(World(a.State(), map[]), qs).live;
            && (forall s: nat, x: nat :: Owns(live, s, x) ==>
                  && PAGE_SIZE <= x < WORD_LIMIT && (forall t: nat :: Owns(live, t, x) ==> t == s)
                  && (StartAtPages(mmap) ==> exists e :: e in mmap && e.Usable() && e.Holds(x)))
            && (SafeHome(mmap, a.home, a.maxPages) ==>
                  && HomeReserved(Final(World(a.State(), map[]), qs).alloc, a.home)
                  && forall s: nat, x: nat :: Owns(live, s, x) ==> !(a.home <= x < a.home + BitmapSize(a.maxPages)))
  {
    var initial := a.State().used;
    assert World(a.State(), map[]) == StartWorld(initial);
    forall s: nat, x: nat | Owns(Final(StartWorld(initial), qs).live, s, x)
      ensures PAGE_SIZE <= x < WORD_LIMIT
      ensures forall t: nat :: Owns(Final(StartWorld(initial), qs).live, t, x) ==> t == s
      ensures StartAtPages(mmap) ==> exists e :: e in mmap && e.Usable() && e.Holds(x)
      ensures SafeHome(mmap, a.home, a.maxPages) ==> !(a.home <= x < a.home + BitmapSize(a.maxPages))
    {
      BlocksAreSafe(mmap, a.home, initial, qs, s, x);
    }
    if SafeHome(mmap, a.home, a.maxPages) {
      RunsKeepHome(mmap, a.home, initial, qs);
    }
  }

  /** The memory map of a PC with 128 MB: base memory ends in the middle of a page. */
  const PC_MAP: seq<Entry> := [
    Entry(0, 0, 0x9_FC00, 0, 1), Entry(0x9_FC00, 0, 0x400, 0, 2), Entry(0xF_0000, 0, 0x1_0000, 0, 2),
    Entry(0x10_0000, 0, 0x7EE_0000, 0, 1), Entry(0x7FE_0000, 0, 0x2_0000, 0, 2), Entry(0xFFFC_0000, 0, 0x4_0000, 0, 2)
  ]

  /** It meets every condition: the bitmap goes to 1 MB and fits there safely, and what is handed
      out is usable memory. */
  lemma PcMapStarts(used: seq<bool>)
    requires |used| == 0x7FE0 && IsInitialMap(PC_MAP, 0x10_0000, used)
    ensures HomeFits(PC_MAP, 0x7FE0) && IsStart(PC_MAP, 0x10_0000, used)
    ensures SafeHome(PC_MAP, 0x10_0000, 0x7FE0) && StartAtPages(PC_MAP)
  {
    hide IsTop, IsFirstRoom, IsBitmapHome, IsInitialMap, SafeHome;
    PcMapTop();
    PcMapHome();
    assert BitmapSize(0x7FE0) == 0xFFC && PagesFor(0xFFC) == 1;
    AlignedHome(PC_MAP, 0x10_0000, 0x7FE_0000);
    forall home: nat | IsBitmapHome(PC_MAP, 0xFFC, Some(home)) ensures home == 0x10_0000 {
      HomeIsUnique(PC_MAP, 0xFFC, home, 0x10_0000);
    }
  }

  lemma PcMapTop()
    ensures TopPages(PC_MAP, 0x7FE0) && 0x7FE_0000 / PAGE_SIZE == 0x7FE0
  {
    var high := PC_MAP[3];
    assert high in PC_MAP && high.Usable() && high.End() == 0x7FE_0000;
    assert IsTop(PC_MAP, 0x7FE_0000);
  }

  lemma PcMapHome()
    ensures IsBitmapHome(PC_MAP, 0xFFC, Some(0x10_0000))
  {
    var high := PC_MAP[3];
    assert high in PC_MAP && HighRoom(high, 0xFFC) && IsFirstRoom(PC_MAP, 0xFFC, 3);
  }

  /** Its base memory is handed out up to its last whole page, and so is the memory behind the bitmap. */
  lemma PcPagesAreFree(used: seq<bool>)
    requires |used| == 0x7FE0 && IsInitialMap(PC_MAP, 0x10_0000, used)
    ensures forall p: nat :: p < |used| ==> (!used[p] <==> 1 <= p <= 0x9E || 0x101 <= p)
  {
    var low, high := PC_MAP[0], PC_MAP[3];
    assert low in PC_MAP && high in PC_MAP && low.Usable() && high.Usable();
    assert BitmapSize(0x7FE0) == 0xFFC && PagesFor(0xFFC) == 1;
    assert forall e :: e in PC_MAP && e.Usable() ==> e == low || e == high;
    forall p: nat | p < |used| ensures Covered(PC_MAP, p) <==> p <= 0x9E || 0x100 <= p {
      assert low.HasPage(p) <==> p <= 0x9E;
      assert high.HasPage(p) <==> 0x100 <= p < 0x7FE0;
    }
  }

  // ----- what a release does to later requests

  /** After a release the hint is where it was or at the block, whichever is lower. */
  lemma ReleasedHint(st: AllocState, s: nat, n: nat)
    requires st.Valid()
    ensures var h := Freed(st, s, n).hint; h <= st.hint && h <= s && (h == st.hint || h == s)
  {
  }

  /** The next request is served from there on: it gets the lowest free run, if any, at or above the
      old hint or the released block, whichever is lower. */
  lemma NextAfterRelease(st: AllocState, s: nat, n: nat, m: nat)
    requires st.Valid() && m >= 1
    ensures var st' := Freed(st, s, n);
            var r := Allocated(st', m).1;
            && st'.Valid()
            && forall t: nat :: st.hint <= t || s <= t ==>
                 IsFreeRun(st'.used, t, m) ==>
                 r.Some? && r.value <= t && (st.hint <= r.value || s <= r.value) && IsFreeRun(st'.used, r.value, m)
  {
    var st' := Freed(st, s, n);
    FirstRunIsLowest(st'.used, st'.hint, |st'.used|, m);
    FirstRunIsLowest(st'.used, 0, st'.hint, m);
  }

  /** In particular a release at or above the hint does not make the search start lower: with pages 2
      and 4 to 6 free below a hint of 6, page 7 is what the next request gets once it is released. */
  lemma ReleaseAboveHint()
    ensures var st := AllocState([true, true, false, true, true, true, true, true], 6);
            Allocated(Freed(st, 7, 1), 1).1 == Some(7)
  {
    var st := AllocState([true, true, false, true, true, true, true, true], 6);
    var st' := Freed(st, 7, 1);
    assert st'.used[6] && !st'.used[7];
    LowestIsAllocated(st', 1, 7);
  }
}
