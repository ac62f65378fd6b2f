/** Whole runs of the scheduler and its tasks: invariant, transparency of yield, round robin. */
module SchedulerRuns {
  import opened ContextSwitch
  import opened Scheduler

  /** The machine, the number of used slots, and the dispatches so far: which slot, and how many
      slots were used when it was dispatched. */
  datatype World = World(m: Machine, n: nat, log: seq<(nat, nat)>)

  /** What happens next: one turn of the scheduler's loop, or the running task computes, spawns
      a task, or calls yield from a place it returns to at `ra`. */
  datatype Event = Turn | Local(next: Machine) | Spawn(fn: int) | Yield(ra: int)

  /** One of the two: the scheduler is in its loop, or the current task is running. */
  ghost predicate Inv(w: World) {
    if w.m.r.eip == SCHED_LOOP then InScheduler(w.m, w.n)
    else |w.m.mem| >= KSTACK_TOP && InTask(w.m, w.n, w.m.mem[CURRENT])
  }

  /** Task j computes: its registers change at will, memory only on its own stack and outside
      the table and the scheduler's stack. */
  ghost predicate LocalMove(m: Machine, next: Machine, j: int) {
    && |next.mem| == |m.mem| && TaskCode(next.r.eip) && StackLow(j) <= next.r.esp <= StackTop(j)
    && forall x :: 0 <= x < KSTACK_TOP && x < |m.mem| && !(StackLow(j) <= x < StackTop(j)) ==> next.mem[x] == m.mem[x]
  }

  ghost predicate Allowed(w: World, e: Event)
    requires Inv(w)
  {
    match e
    case Turn => w.m.r.eip == SCHED_LOOP
    case Local(next) => w.m.r.eip != SCHED_LOOP && LocalMove(w.m, next, w.m.mem[CURRENT])
    case Spawn(fn) => w.m.r.eip != SCHED_LOOP && TaskCode(fn)
    case Yield(ra) => w.m.r.eip != SCHED_LOOP && TaskCode(ra) && RoomToYield(w.m, w.m.mem[CURRENT])
  }

  /** task_l_spawn, as its caller sees it. */
  ghost function Spawned(m: Machine, fn: int): Machine
    requires |m.mem| >= KSTACK_TOP
  {
    var k := FirstUnused(m.mem, 0);
    if k < NPROC then Machine(SpawnedMem(m.mem, k, fn), m.r.(eax := k)) else m.(r := m.r.(eax := -1))
  }

  /** The slot at the scheduler's loop variable. */
  ghost function RunnableSlot(m: Machine, n: nat): (i: nat)
    requires InScheduler(m, n) && m.mem[m.r.ebx] == RUNNABLE
    ensures i < n && m.r.ebx == Proc(i) && Parked(m.mem, i) && m.mem[Proc(i)] == RUNNABLE
  {
    var i: nat :| i < NPROC && m.r.ebx == Proc(i);
    assert m.mem[Proc(i)] != UNUSED;
    i
  }

  // ----- each kind of event keeps the invariant

  lemma SkipInScheduler(m: Machine, n: nat)
    requires InScheduler(m, n)
    ensures InScheduler(m.(r := m.r.(ebx := NextProc(m.r.ebx))), n)
  {
    var p: nat :| p < NPROC && m.r.ebx == Proc(p);
    NextProcIsProc(p);
  }

  lemma LocalInTask(m: Machine, n: nat, j: int, next: Machine)
    requires |m.mem| >= KSTACK_TOP && InTask(m, n, j) && LocalMove(m, next, j)
    ensures InTask(next, n, j)
  {
    forall k | 0 <= k < n && k != j ensures next.mem[Proc(k)] == RUNNABLE && Parked(next.mem, k) {
      ParkedStays(m.mem, next.mem, k);
    }
  }

  /** What spawning writes: a frame for slot k that swtch will pop, with cleared registers and
      `fn` as the return address. */
  lemma SpawnWrites(mem: seq<int>, k: nat, fn: int)
    requires |mem| >= KSTACK_TOP && k < NPROC && TaskCode(fn)
    ensures var (r, c) := (SpawnedMem(mem, k, fn), FreshContext(k));
            && r[Proc(k)] == RUNNABLE && r[ContextCell(k)] == c && Parked(r, k)
            && r[c] == r[c + 1] == r[c + 2] == r[c + 3] == 0 && r[c + 4] == fn
            && r[StackLow(k) + 1022] == fn && r[StackLow(k) + 1021] == 0
            && forall x :: 0 <= x < |mem| && !(Proc(k) <= x < StackTop(k)) ==> r[x] == mem[x]
  {
  }

  lemma FirstUnusedIsCount(mem: seq<int>, n: nat)
    requires |mem| >= KSTACK_TOP && UsedPrefix(mem, n)
    ensures FirstUnused(mem, 0) == n
  {
  }

  lemma SpawnInTask(m: Machine, n: nat, j: int, mem: seq<int>, r: Regs)
    requires InTask(m, n, j) && n < NPROC && |mem| == |m.mem| && r == m.r.(eax := r.eax)
    requires mem[Proc(n)] == RUNNABLE && Parked(mem, n)
    requires forall x :: 0 <= x < |mem| && !(Proc(n) <= x < StackTop(n)) ==> mem[x] == m.mem[x]
    ensures InTask(Machine(mem, r), n + 1, j)
  {
    forall k | 0 <= k < n + 1 && k != j ensures mem[Proc(k)] == RUNNABLE && Parked(mem, k) {
      if k < n {
        ParkedStays(m.mem, mem, k);
      }
    }
  }

  lemma SpawnedInTask(m: Machine, n: nat, j: int, fn: int)
    requires |m.mem| >= KSTACK_TOP && InTask(m, n, j) && TaskCode(fn)
    ensures InTask(Spawned(m, fn), if n < NPROC then n + 1 else n, j)
  {
    FirstUnusedIsCount(m.mem, n);
    if n < NPROC {
      SpawnWrites(m.mem, n, fn);
      SpawnInTask(m, n, j, SpawnedMem(m.mem, n, fn), Spawned(m, fn).r);
    }
  }

  /** The world after an event. The invariant holds again: in every run at most one slot is
      RUNNING, and it is `current` and on its own stack; the used slots are a prefix of the
      table; all others are parked. The scheduler never gets stuck: it can always take its
      next turn, and a task with stack left can always yield. */
  ghost function After(w: World, e: Event): (r: World)
    requires Inv(w) && Allowed(w, e)
    ensures Inv(r)
  {
    match e
    case Turn =>
      if w.m.mem[w.m.r.ebx] != RUNNABLE then
        SkipInScheduler(w.m, w.n);
        w.(m := w.m.(r := w.m.r.(ebx := NextProc(w.m.r.ebx))))
      else
        var i := RunnableSlot(w.m, w.n);
        DispatchResumes(w.m, i);
        DispatchEntersTask(w.m, w.n, i, Dispatched(w.m));
        World(Dispatched(w.m), w.n, w.log + [(i, w.n)])
    case Local(next) =>
      LocalInTask(w.m, w.n, w.m.mem[CURRENT], next);
      w.(m := next)
    case Spawn(fn) =>
      SpawnedInTask(w.m, w.n, w.m.mem[CURRENT], fn);
      World(Spawned(w.m, fn), if w.n < NPROC then w.n + 1 else w.n, w.log)
    case Yield(ra) =>
      var j := w.m.mem[CURRENT];
      YieldResumes(w.m, j, ra);
      YieldEntersScheduler(w.m, w.n, j, ra, SavedMem(YieldCall(w.m, ra)), Yielded(w.m, ra));
      w.(m := Yielded(w.m, ra))
  }

  /** A run of events that are all allowed when their turn comes. */
  ghost predicate Legal(w: World, es: seq<Event>)
    requires Inv(w)
    decreases |es|
  {
    es == [] || (Allowed(w, es[0]) && Legal(After(w, es[0]), es[1..]))
  }

  ghost function Run(w: World, es: seq<Event>): (r: World)
    requires Inv(w) && Legal(w, es)
    ensures Inv(r)
    decreases |es|
  {
    if es == [] then w else Run(After(w, es[0]), es[1..])
  }

  /** Task i is not the one that runs. */
  ghost predicate Away(w: World, i: int)
    requires Inv(w)
  {
    w.m.r.eip == SCHED_LOOP || w.m.mem[CURRENT] != i
  }

  /** Slot i as a whole: context pointer and stack. */
  ghost predicate SlotSame(a: seq<int>, b: seq<int>, i: int) {
    Agree(a, b, ContextCell(i), StackTop(i))
  }

  lemma TurnLeavesSlot(w: World, i: nat)
    requires Inv(w) && w.m.r.eip == SCHED_LOOP && i < w.n
    ensures SlotSame(w.m.mem, After(w, Turn).m.mem, i)
  {
    if w.m.mem[w.m.r.ebx] == RUNNABLE {
      var k := RunnableSlot(w.m, w.n);
      DispatchResumes(w.m, k);
      TaskWordsStay(w.m, Dispatched(w.m).mem, k, i);
    }
  }

  lemma YieldLeavesSlot(w: World, ra: int, i: nat)
    requires Inv(w) && Allowed(w, Yield(ra)) && i < w.n && w.m.mem[CURRENT] != i
    ensures SlotSame(w.m.mem, After(w, Yield(ra)).m.mem, i)
  {
    var j := w.m.mem[CURRENT];
    YieldResumes(w.m, j, ra);
    YieldedSlots(w.m, j, ra, SavedMem(YieldCall(w.m, ra)), Yielded(w.m, ra).mem);
  }

  lemma TaskEventLeavesSlot(w: World, e: Event, i: nat)
    requires Inv(w) && (e.Local? || e.Spawn?) && Allowed(w, e) && i < w.n && w.m.mem[CURRENT] != i
    ensures SlotSame(w.m.mem, After(w, e).m.mem, i) && i < After(w, e).n
  {
    if e.Spawn? {
      FirstUnusedIsCount(w.m.mem, w.n);
      if w.n < NPROC {
        SpawnWrites(w.m.mem, w.n, e.fn);
      }
    }
  }

  /** No event touches the slot of a used task that is away before and after it. */
  lemma EventLeavesSlot(w: World, e: Event, i: nat)
    requires Inv(w) && Allowed(w, e) && i < w.n
    requires Away(w, i) && Away(After(w, e), i)
    ensures SlotSame(w.m.mem, After(w, e).m.mem, i) && i < After(w, e).n
  {
    match e
    case Turn => TurnLeavesSlot(w, i);
    case Yield(ra) => YieldLeavesSlot(w, ra, i);
    case Local(_) => TaskEventLeavesSlot(w, e, i);
    case Spawn(_) => TaskEventLeavesSlot(w, e, i);
  }

  /** Task i is away throughout a run. */
  ghost predicate AwayAlong(w: World, es: seq<Event>, i: int)
    requires Inv(w) && Legal(w, es)
    decreases |es|
  {
    Away(w, i) && (es == [] || AwayAlong(After(w, es[0]), es[1..], i))
  }

  /** However long it lasts, whatever the other tasks do: the slot of a task that is away stays
      as it is. */
  lemma {:induction false} RunLeavesSlot(w: World, es: seq<Event>, i: nat)
    requires Inv(w) && Legal(w, es) && i < w.n && AwayAlong(w, es, i)
    ensures SlotSame(w.m.mem, Run(w, es).m.mem, i) && i < Run(w, es).n
    decreases |es|
  {
    if es != [] {
      var w1 := After(w, es[0]);
      assert AwayAlong(w1, es[1..], i);
      assert Away(w1, i);
      EventLeavesSlot(w, es[0], i);
      RunLeavesSlot(w1, es[1..], i);
    }
  }

  /** The scheduler is about to dispatch slot i. */
  ghost predicate AboutToDispatch(w: World, i: nat)
    requires Inv(w)
  {
    w.m.r.eip == SCHED_LOOP && i < NPROC && w.m.r.ebx == Proc(i) && w.m.mem[Proc(i)] == RUNNABLE
  }

  /** Dispatching slot i resumes its saved context. */
  lemma DispatchOf(w: World, i: nat)
    requires Inv(w) && AboutToDispatch(w, i)
    ensures i < w.n && Parked(w.m.mem, i)
    ensures ResumedFrom(After(w, Turn).m.r, w.m.mem, w.m.mem[ContextCell(i)])
    ensures SlotSame(w.m.mem, After(w, Turn).m.mem, i) && After(w, Turn).log == w.log + [(i, w.n)]
  {
    var k := RunnableSlot(w.m, w.n);
    assert k == i;
    DispatchResumes(w.m, i);
    TaskWordsStay(w.m, Dispatched(w.m).mem, i, i);
  }

  /** What a task's slot holds after it has yielded: below its stack pointer its registers and
      the place it returns to, above it its stack as it was. */
  ghost predicate LeftBehind(m: Machine, mem: seq<int>, j: nat, ra: int) {
    var s := m.r.esp;
    && j < NPROC && StackLow(j) + 8 <= s <= StackTop(j) && |mem| >= KSTACK_TOP
    && mem[ContextCell(j)] == s - 8
    && mem[s - 8] == m.r.edi && mem[s - 7] == m.r.esi && mem[s - 6] == m.r.ebx && mem[s - 5] == m.r.ebp
    && mem[s - 4] == YIELD_RESUME && mem[s - 1] == ra
    && Agree(m.mem, mem, s, StackTop(j))
  }

  lemma SavedIsLeft(m: Machine, mid: seq<int>, mem: seq<int>, j: nat, ra: int)
    requires |m.mem| >= KSTACK_TOP && j < NPROC && StackLow(j) + 8 <= m.r.esp <= StackTop(j)
    requires TaskSaved(m, mid, j, ra) && SlotSame(mid, mem, j)
    ensures LeftBehind(m, mem, j, ra)
  {
    var s := m.r.esp;
    assert mem[ContextCell(j)] == mid[ContextCell(j)];
    assert mem[s - 8] == mid[s - 8] && mem[s - 7] == mid[s - 7] && mem[s - 6] == mid[s - 6];
    assert mem[s - 5] == mid[s - 5] && mem[s - 4] == mid[s - 4] && mem[s - 1] == mid[s - 1];
  }

  lemma LeftStaysLeft(m: Machine, mid: seq<int>, mem: seq<int>, j: nat, ra: int)
    requires |m.mem| >= KSTACK_TOP && LeftBehind(m, mid, j, ra) && SlotSame(mid, mem, j)
    ensures LeftBehind(m, mem, j, ra)
  {
    var s := m.r.esp;
    assert mem[ContextCell(j)] == mid[ContextCell(j)];
    assert mem[s - 8] == mid[s - 8] && mem[s - 7] == mid[s - 7] && mem[s - 6] == mid[s - 6];
    assert mem[s - 5] == mid[s - 5] && mem[s - 4] == mid[s - 4] && mem[s - 1] == mid[s - 1];
  }

  lemma YieldLeaves(w: World, ra: int)
    requires Inv(w) && Allowed(w, Yield(ra))
    ensures LeftBehind(w.m, After(w, Yield(ra)).m.mem, w.m.mem[CURRENT], ra)
  {
    var j := w.m.mem[CURRENT];
    YieldResumes(w.m, j, ra);
    YieldEntersScheduler(w.m, w.n, j, ra, SavedMem(YieldCall(w.m, ra)), Yielded(w.m, ra));
    SavedIsLeft(w.m, SavedMem(YieldCall(w.m, ra)), Yielded(w.m, ra).mem, j, ra);
  }

  /** The call of yield made in `m` from a place that continues at `ra` has returned in `back`:
      callee-saved registers, stack pointer, the stack above it and the place are as they were. */
  ghost predicate Returned(m: Machine, back: Machine, j: nat, ra: int) {
    && back.r.ebp == m.r.ebp && back.r.ebx == m.r.ebx && back.r.esi == m.r.esi && back.r.edi == m.r.edi
    && back.r.esp == m.r.esp && back.r.eip == ra
    && Agree(m.mem, back.mem, m.r.esp, StackTop(j))
  }

  lemma LeftIsReturned(m: Machine, mem: seq<int>, j: nat, ra: int, back: Machine)
    requires |m.mem| >= KSTACK_TOP && LeftBehind(m, mem, j, ra)
    requires Parked(mem, j) && ResumedFrom(back.r, mem, mem[ContextCell(j)]) && SlotSame(mem, back.mem, j)
    ensures Returned(m, back, j, ra)
  {
  }

  /** Transparency of yield: whatever runs in between, when yield returns to its caller
      everything is as it was at the call. */
  lemma YieldIsTransparent(w: World, ra: int, es: seq<Event>, j: nat)
    requires Inv(w) && Allowed(w, Yield(ra)) && j == w.m.mem[CURRENT]
    requires Legal(After(w, Yield(ra)), es) && AwayAlong(After(w, Yield(ra)), es, j)
    requires AboutToDispatch(Run(After(w, Yield(ra)), es), j)
    ensures Returned(w.m, After(Run(After(w, Yield(ra)), es), Turn).m, j, ra)
  {
    YieldLeaves(w, ra);
    ComesBack(w.m, After(w, Yield(ra)), es, j, ra);
  }

  /** The second half: from right after the yield on. */
  lemma ComesBack(m: Machine, w: World, es: seq<Event>, j: nat, ra: int)
    requires |m.mem| >= KSTACK_TOP && Inv(w) && Legal(w, es) && j < w.n && AwayAlong(w, es, j)
    requires LeftBehind(m, w.m.mem, j, ra)
    requires AboutToDispatch(Run(w, es), j)
    ensures Returned(m, After(Run(w, es), Turn).m, j, ra)
  {
    RunLeavesSlot(w, es, j);
    LeftStaysLeft(m, w.m.mem, Run(w, es).m.mem, j, ra);
    Redispatched(m, Run(w, es), j, ra);
  }

  lemma Redispatched(m: Machine, w: World, j: nat, ra: int)
    requires |m.mem| >= KSTACK_TOP && Inv(w) && AboutToDispatch(w, j) && LeftBehind(m, w.m.mem, j, ra)
    ensures Returned(m, After(w, Turn).m, j, ra)
  {
    DispatchOf(w, j);
    LeftIsReturned(m, w.m.mem, j, ra, After(w, Turn).m);
  }

  /** The frame of a task that has not run yet. */
  ghost predicate FreshFrame(mem: seq<int>, k: nat, fn: int) {
    var c := FreshContext(k);
    && |mem| >= KSTACK_TOP && k < NPROC && TaskCode(fn)
    && mem[ContextCell(k)] == c && mem[c] == mem[c + 1] == mem[c + 2] == mem[c + 3] == 0 && mem[c + 4] == fn
  }

  lemma FreshStaysFresh(a: seq<int>, b: seq<int>, k: nat, fn: int)
    requires FreshFrame(a, k, fn) && SlotSame(a, b, k)
    ensures FreshFrame(b, k, fn)
  {
    var c := FreshContext(k);
    assert b[ContextCell(k)] == a[ContextCell(k)] && b[c + 4] == a[c + 4];
    assert b[c] == a[c] && b[c + 1] == a[c + 1] && b[c + 2] == a[c + 2] && b[c + 3] == a[c + 3];
  }

  /** A spawned task starts at its function with cleared callee-saved registers, however long
      it waits for its first turn. */
  lemma SpawnedTaskStarts(w: World, fn: int, es: seq<Event>)
    requires Inv(w) && Allowed(w, Spawn(fn)) && w.n < NPROC
    requires Legal(After(w, Spawn(fn)), es) && AwayAlong(After(w, Spawn(fn)), es, w.n)
    requires AboutToDispatch(Run(After(w, Spawn(fn)), es), w.n)
    ensures var r := After(Run(After(w, Spawn(fn)), es), Turn).m.r;
            r.eip == fn && r.ebp == r.ebx == r.esi == r.edi == 0 && r.esp == FreshContext(w.n) + CONTEXT_WORDS
  {
    SpawnFrames(w, fn);
    FirstTurn(After(w, Spawn(fn)), es, w.n, fn);
  }

  lemma SpawnFrames(w: World, fn: int)
    requires Inv(w) && Allowed(w, Spawn(fn)) && w.n < NPROC
    ensures FreshFrame(After(w, Spawn(fn)).m.mem, w.n, fn) && After(w, Spawn(fn)).n == w.n + 1
  {
    FirstUnusedIsCount(w.m.mem, w.n);
    SpawnWrites(w.m.mem, w.n, fn);
  }

  lemma FirstTurn(w: World, es: seq<Event>, k: nat, fn: int)
    requires Inv(w) && Legal(w, es) && k < w.n && AwayAlong(w, es, k) && FreshFrame(w.m.mem, k, fn)
    requires AboutToDispatch(Run(w, es), k)
    ensures var r := After(Run(w, es), Turn).m.r;
            r.eip == fn && r.ebp == r.ebx == r.esi == r.edi == 0 && r.esp == FreshContext(k) + CONTEXT_WORDS
  {
    RunLeavesSlot(w, es, k);
    FreshStaysFresh(w.m.mem, Run(w, es).m.mem, k, fn);
    DispatchOf(Run(w, es), k);
  }

  /** The running task computes and spawns, but does not yield. */
  ghost predicate InsideTask(es: seq<Event>) {
    forall e :: e in es ==> e.Local? || e.Spawn?
  }

  lemma TaskEventLeavesScheduler(w: World, e: Event)
    requires Inv(w) && w.m.r.eip != SCHED_LOOP && (e.Local? || e.Spawn?) && Allowed(w, e)
    ensures Agree(w.m.mem, After(w, e).m.mem, CURRENT, KSTACK_TOP) && After(w, e).m.r.eip != SCHED_LOOP
  {
    if e.Spawn? {
      FirstUnusedIsCount(w.m.mem, w.n);
      if w.n < NPROC {
        SpawnWrites(w.m.mem, w.n, e.fn);
      }
    }
  }

  lemma {:induction false} TaskLeavesScheduler(w: World, es: seq<Event>)
    requires Inv(w) && Legal(w, es) && w.m.r.eip != SCHED_LOOP && InsideTask(es)
    ensures Agree(w.m.mem, Run(w, es).m.mem, CURRENT, KSTACK_TOP) && Run(w, es).m.r.eip != SCHED_LOOP
    decreases |es|
  {
    if es != [] {
      assert es[0] in es;
      TaskEventLeavesScheduler(w, es[0]);
      TaskLeavesScheduler(After(w, es[0]), es[1..]);
    }
  }

  /** The scheduler's loop goes on after the dispatch made in `m`: its registers, stack pointer
      and stack are as they were, and its loop variable is the next slot. */
  ghost predicate LoopGoesOn(m: Machine, back: Machine) {
    && back.r.ebp == m.r.ebp && back.r.esi == m.r.esi && back.r.edi == m.r.edi
    && back.r.esp == m.r.esp && back.r.eip == SCHED_LOOP && back.r.ebx == NextProc(m.r.ebx)
    && Agree(m.mem, back.mem, m.r.esp, KSTACK_TOP)
  }

  /** The same for the scheduler: from a dispatch to the yield that ends it, all it relies on
      is kept. */
  lemma DispatchIsTransparent(w: World, i: nat, es: seq<Event>, ra: int)
    requires Inv(w) && AboutToDispatch(w, i) && InsideTask(es)
    requires Legal(After(w, Turn), es) && Allowed(Run(After(w, Turn), es), Yield(ra))
    ensures LoopGoesOn(w.m, After(Run(After(w, Turn), es), Yield(ra)).m)
  {
    TurnSaves(w, i);
    TaskLeavesScheduler(After(w, Turn), es);
    YieldsBack(w.m, After(w, Turn).m.mem, Run(After(w, Turn), es), i, ra);
  }

  lemma TurnSaves(w: World, i: nat)
    requires Inv(w) && AboutToDispatch(w, i)
    ensures KSTACK + 7 <= w.m.r.esp <= KSTACK_TOP && SchedulerSaved(w.m, After(w, Turn).m.mem, i)
    ensures After(w, Turn).m.r.eip != SCHED_LOOP
  {
    var k := RunnableSlot(w.m, w.n);
    DispatchResumes(w.m, i);
    DispatchEntersTask(w.m, w.n, i, Dispatched(w.m));
  }

  lemma YieldsBack(m: Machine, saved: seq<int>, w: World, i: nat, ra: int)
    requires |m.mem| >= KSTACK_TOP && i < NPROC && m.r.ebx == Proc(i) && KSTACK + 7 <= m.r.esp <= KSTACK_TOP
    requires SchedulerSaved(m, saved, i) && Inv(w) && Agree(saved, w.m.mem, CURRENT, KSTACK_TOP)
    requires Allowed(w, Yield(ra))
    ensures LoopGoesOn(m, After(w, Yield(ra)).m)
  {
    SchedulerReadBack(m, saved, w.m.mem, i);
    YieldResumes(w.m, i, ra);
    YieldKernelWords(w, ra);
    LoopReadBack(m, w.m.mem, After(w, Yield(ra)).m, i);
  }

  lemma SchedulerReadBack(m: Machine, saved: seq<int>, mem: seq<int>, i: nat)
    requires |m.mem| >= KSTACK_TOP && i < NPROC && KSTACK + 7 <= m.r.esp <= KSTACK_TOP && SchedulerSaved(m, saved, i)
    requires Agree(saved, mem, CURRENT, KSTACK_TOP)
    ensures mem[CURRENT] == i && mem[SCHED] == m.r.esp - 7
    ensures mem[m.r.esp - 7] == m.r.edi && mem[m.r.esp - 6] == m.r.esi && mem[m.r.esp - 4] == m.r.ebp
    ensures Agree(m.mem, mem, m.r.esp, KSTACK_TOP)
  {
    var s := m.r.esp;
    assert mem[s - 7] == saved[s - 7] && mem[s - 6] == saved[s - 6] && mem[s - 4] == saved[s - 4];
  }

  lemma LoopReadBack(m: Machine, mem: seq<int>, back: Machine, i: nat)
    requires |mem| >= KSTACK_TOP && KSTACK + 7 <= m.r.esp <= KSTACK_TOP && m.r.ebx == Proc(i) && SchedulerParked(mem, i)
    requires mem[SCHED] == m.r.esp - 7
    requires mem[m.r.esp - 7] == m.r.edi && mem[m.r.esp - 6] == m.r.esi && mem[m.r.esp - 4] == m.r.ebp
    requires SchedulerResumed(mem, back.r, i)
    requires Agree(m.mem, mem, m.r.esp, KSTACK_TOP) && Agree(mem, back.mem, SCHED, KSTACK_TOP)
    ensures LoopGoesOn(m, back)
  {
  }

  /** A yield leaves the scheduler's loop at the slot after the yielding one. */
  lemma YieldToNext(w: World, ra: int)
    requires Inv(w) && Allowed(w, Yield(ra))
    ensures var (j, r) := (w.m.mem[CURRENT], After(w, Yield(ra)));
            && r.m.r.eip == SCHED_LOOP && r.n == w.n && r.log == w.log
            && r.m.r.ebx == Proc(if j + 1 < NPROC then j + 1 else 0)
  {
    YieldResumes(w.m, w.m.mem[CURRENT], ra);
    NextProcIsProc(w.m.mem[CURRENT]);
  }

  /** Spawning leaves the spawner running. */
  lemma SpawnGoesOn(w: World, fn: int)
    requires Inv(w) && Allowed(w, Spawn(fn))
    ensures var r := After(w, Spawn(fn));
            && r.m.r.eip == w.m.r.eip && r.m.mem[CURRENT] == w.m.mem[CURRENT] && r.log == w.log && w.n <= r.n
  {
    FirstUnusedIsCount(w.m.mem, w.n);
    if w.n < NPROC {
      SpawnWrites(w.m.mem, w.n, fn);
    }
  }

  lemma YieldKernelWords(w: World, ra: int)
    requires Inv(w) && Allowed(w, Yield(ra))
    ensures Agree(w.m.mem, After(w, Yield(ra)).m.mem, SCHED, KSTACK_TOP)
  {
    var j := w.m.mem[CURRENT];
    YieldResumes(w.m, j, ra);
    KernelWordsStay(w.m, SavedMem(YieldCall(w.m, ra)), j, ra);
  }

  /** What task_l_spawn answers: the slot it has taken, or -1, with nothing changed, when all are used. */
  lemma SpawnAnswers(m: Machine, n: nat, fn: int)
    requires |m.mem| >= KSTACK_TOP && UsedPrefix(m.mem, n)
    ensures n < NPROC ==> Spawned(m, fn).r.eax == n && Spawned(m, fn).mem[Proc(n)] == RUNNABLE
    ensures n == NPROC ==> Spawned(m, fn) == m.(r := m.r.(eax := -1))
  {
    FirstUnusedIsCount(m.mem, n);
  }
}
