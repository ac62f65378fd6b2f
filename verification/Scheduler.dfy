/** The cooperative scheduler: a process table in memory, and the code that moves between the
    scheduler's stack and the stacks of eight tasks. */
module Scheduler {
  import opened ContextSwitch

  const NPROC: nat := 8
  const STACK_WORDS: nat := 1024
  const PROC_WORDS: nat := 1026

  const UNUSED: int := 0
  const RUNNABLE: int := 1
  const RUNNING: int := 2

  /** The process table, in words: per slot its state, its context pointer and its stack; then
      the current slot and the scheduler's context pointer. The scheduler's stack is elsewhere. */
  function Proc(i: int): int {
    PROC_WORDS * i
  }

  function ContextCell(i: int): int {
    Proc(i) + 1
  }

  function StackLow(i: int): int {
    Proc(i) + 2
  }

  function StackTop(i: int): int {
    Proc(i) + 2 + STACK_WORDS
  }

  const CURRENT: int := PROC_WORDS * NPROC
  const SCHED: int := CURRENT + 1
  const KSTACK: int := SCHED + 1
  const KSTACK_TOP: int := KSTACK + 1024

  /** Places in the kernel's code where control can rest: the head of the scheduler's loop, and
      the return addresses of the two calls of swtch. */
  const SCHED_LOOP: int := -1
  const SCHED_RESUME: int := -2
  const YIELD_RESUME: int := -3

  /** Any other place is task code. */
  predicate TaskCode(a: int) {
    a != SCHED_LOOP && a != SCHED_RESUME && a != YIELD_RESUME
  }

  /** The slot after the one at address p, round the table. */
  function NextProc(p: int): int {
    if p + PROC_WORDS < CURRENT then p + PROC_WORDS else 0
  }

  // ----- task_l_spawn

  function FirstUnused(mem: seq<int>, i: nat): (k: nat)
    requires |mem| >= KSTACK_TOP && i <= NPROC
    ensures i <= k <= NPROC
    ensures forall j :: i <= j < k ==> mem[Proc(j)] != UNUSED
    ensures k < NPROC ==> mem[Proc(k)] == UNUSED
    decreases NPROC - i
  {
    if i == NPROC || mem[Proc(i)] == UNUSED then i else FirstUnused(mem, i + 1)
  }

  /** Where a new task's context goes: below the two words at the top of the stack, 20 words
      down, for the size of the context in bytes is subtracted from a pointer to words. */
  function FreshContext(k: int): int {
    StackLow(k) + 1023 - 2 - 20
  }

  /** Memory with slot k set up to run `fn`. */
  function SpawnedMem(mem: seq<int>, k: nat, fn: int): (r: seq<int>)
    requires |mem| >= KSTACK_TOP && k < NPROC
    ensures |r| == |mem|
  {
    var c := FreshContext(k);
    mem[StackLow(k) + 1022 := fn][StackLow(k) + 1021 := 0][ContextCell(k) := c]
       [c + 3 := 0][c + 2 := 0][c + 1 := 0][c := 0][c + 4 := fn][Proc(k) := RUNNABLE]
  }

  // ----- m_scheduler and yield

  /** The scheduler about to enter swtch for the slot in ebx. */
  function DispatchCall(m: Machine): Machine
    requires |m.mem| >= KSTACK_TOP && 0 <= m.r.ebx < CURRENT && KSTACK + 3 <= m.r.esp <= KSTACK_TOP
  {
    var marked := m.(mem := m.mem[CURRENT := m.r.ebx / PROC_WORDS][m.r.ebx := RUNNING]);
    marked.Push(marked.mem[m.r.ebx + 1]).Push(SCHED).Push(SCHED_RESUME)
  }

  /** A task that has called yield from a place it returns to at `ra`, about to enter swtch. */
  function YieldCall(m: Machine, ra: int): Machine
    requires |m.mem| >= KSTACK_TOP && 0 <= m.mem[CURRENT] < NPROC
    requires StackLow(m.mem[CURRENT]) + 4 <= m.r.esp <= StackTop(m.mem[CURRENT])
  {
    var p := Proc(m.mem[CURRENT]);
    var called := m.Push(ra);
    var marked := called.(mem := called.mem[p := RUNNABLE]);
    marked.Push(marked.mem[SCHED]).Push(p + 1).Push(YIELD_RESUME)
  }

  /** Control can go on from where swtch has returned to. */
  predicate CanGoOn(m: Machine) {
    && |m.mem| >= KSTACK_TOP
    && (m.r.eip == SCHED_RESUME ==> 0 <= m.r.ebx < CURRENT)
    && (m.r.eip == YIELD_RESUME ==> 0 <= m.r.esp && m.r.esp + 2 < |m.mem|)
  }

  /** The code after the call of swtch that is returned to: the end of the scheduler's loop
      body, the end of yield, or the first instruction of a new task. */
  function GoOn(m: Machine): Machine
    requires CanGoOn(m)
  {
    if m.r.eip == SCHED_RESUME then
      Machine(m.mem[m.r.ebx := RUNNABLE][CURRENT := -1],
              m.r.(ebx := NextProc(m.r.ebx), esp := m.r.esp + 2, eip := SCHED_LOOP))
    else if m.r.eip == YIELD_RESUME then
      m.(r := m.r.(eip := m.mem[m.r.esp + 2], esp := m.r.esp + 3))
    else m
  }

  // ----- what holds between steps

  /** Task i is away, and can be resumed: either new, or inside yield. */
  ghost predicate Parked(mem: seq<int>, i: int)
    requires |mem| >= KSTACK_TOP && 0 <= i < NPROC
  {
    var c := mem[ContextCell(i)];
    && StackLow(i) <= c && c + CONTEXT_WORDS <= StackTop(i)
    && (mem[c + 4] == YIELD_RESUME ==> c + 8 <= StackTop(i) && TaskCode(mem[c + 7]))
    && (mem[c + 4] == YIELD_RESUME || TaskCode(mem[c + 4]))
  }

  /** The scheduler is away, having dispatched task j. */
  ghost predicate SchedulerParked(mem: seq<int>, j: int)
    requires |mem| >= KSTACK_TOP
  {
    var c := mem[SCHED];
    && KSTACK <= c && c + 7 <= KSTACK_TOP
    && mem[c + 4] == SCHED_RESUME && mem[c + 2] == Proc(j)
  }

  /** The first n slots are used and no others. */
  ghost predicate UsedPrefix(mem: seq<int>, n: nat)
    requires |mem| >= KSTACK_TOP
  {
    n <= NPROC && forall i :: 0 <= i < NPROC ==> (mem[Proc(i)] == UNUSED <==> n <= i)
  }

  /** Every used slot but `j` is runnable and parked. */
  ghost predicate OthersParked(mem: seq<int>, n: nat, j: int)
    requires |mem| >= KSTACK_TOP && n <= NPROC
  {
    forall i :: 0 <= i < n && i != j ==> mem[Proc(i)] == RUNNABLE && Parked(mem, i)
  }

  /** The scheduler runs. */
  ghost predicate InScheduler(m: Machine, n: nat) {
    && |m.mem| >= KSTACK_TOP && UsedPrefix(m.mem, n) && OthersParked(m.mem, n, -1)
    && m.r.eip == SCHED_LOOP && m.mem[CURRENT] == -1
    && (exists p: nat :: p < NPROC && m.r.ebx == Proc(p))
    && KSTACK + 7 <= m.r.esp <= KSTACK_TOP
  }

  /** Task j runs: it is `current`, it is the only one RUNNING, and it is on its own stack. */
  ghost predicate InTask(m: Machine, n: nat, j: int) {
    && |m.mem| >= KSTACK_TOP && UsedPrefix(m.mem, n) && 0 <= j < n && OthersParked(m.mem, n, j)
    && m.mem[CURRENT] == j && m.mem[Proc(j)] == RUNNING && SchedulerParked(m.mem, j)
    && TaskCode(m.r.eip) && StackLow(j) <= m.r.esp <= StackTop(j)
  }

  // ----- the scheduler dispatches

  function Dispatched(m: Machine): Machine
    requires |m.mem| >= KSTACK_TOP && 0 <= m.r.ebx < CURRENT && KSTACK + 3 <= m.r.esp <= KSTACK_TOP
    requires CanSwitch(DispatchCall(m)) && CanGoOn(Switched(DispatchCall(m)))
  {
    GoOn(Switched(DispatchCall(m)))
  }

  /** What dispatching writes: the current slot, its state, and the scheduler's own context. */
  ghost predicate SchedulerSaved(m: Machine, mem: seq<int>, i: nat)
    requires |m.mem| >= KSTACK_TOP && i < NPROC && KSTACK + 7 <= m.r.esp <= KSTACK_TOP
  {
    && |mem| == |m.mem|
    && mem[CURRENT] == i && mem[Proc(i)] == RUNNING && mem[SCHED] == m.r.esp - 7
    && mem[m.r.esp - 7] == m.r.edi && mem[m.r.esp - 6] == m.r.esi && mem[m.r.esp - 5] == m.r.ebx
    && mem[m.r.esp - 4] == m.r.ebp && mem[m.r.esp - 3] == SCHED_RESUME
    && forall x :: 0 <= x < |mem| && x != CURRENT && x != Proc(i) && x != SCHED && !(m.r.esp - 7 <= x < m.r.esp) ==>
         mem[x] == m.mem[x]
  }

  /** What the task gets back: the registers of its context, and its place in its code. */
  ghost predicate ResumedFrom(r: Regs, mem: seq<int>, c: int)
    requires 0 <= c && c + 8 < |mem|
  {
    && r.edi == mem[c] && r.esi == mem[c + 1] && r.ebx == mem[c + 2] && r.ebp == mem[c + 3]
    && r.eip == (if mem[c + 4] == YIELD_RESUME then mem[c + 7] else mem[c + 4])
    && r.esp == (if mem[c + 4] == YIELD_RESUME then c + 8 else c + 5)
  }

  lemma DispatchCalls(m: Machine, i: nat)
    requires |m.mem| >= KSTACK_TOP && i < NPROC && m.r.ebx == Proc(i) && KSTACK + 7 <= m.r.esp <= KSTACK_TOP
    requires Parked(m.mem, i)
    ensures var b := DispatchCall(m);
            && CanSwitch(b) && |b.mem| == |m.mem|
            && b.r.esp == m.r.esp - 3 && b.mem[b.r.esp + 1] == SCHED && b.mem[b.r.esp + 2] == m.mem[ContextCell(i)]
            && b.mem[b.r.esp] == SCHED_RESUME
            && b.r.edi == m.r.edi && b.r.esi == m.r.esi && b.r.ebx == m.r.ebx && b.r.ebp == m.r.ebp
            && b.mem[CURRENT] == i && b.mem[Proc(i)] == RUNNING
            && forall x :: 0 <= x < |m.mem| && x != CURRENT && x != Proc(i) && !(m.r.esp - 3 <= x < m.r.esp) ==>
                 b.mem[x] == m.mem[x]
  {
  }

  lemma DispatchSaves(m: Machine, i: nat)
    requires |m.mem| >= KSTACK_TOP && i < NPROC && m.r.ebx == Proc(i) && KSTACK + 7 <= m.r.esp <= KSTACK_TOP
    requires Parked(m.mem, i)
    ensures CanSwitch(DispatchCall(m)) && SchedulerSaved(m, SavedMem(DispatchCall(m)), i)
  {
    DispatchCalls(m, i);
    SwitchSaves(DispatchCall(m));
  }

  /** Going on from a parked task's context. */
  lemma ParkedGoesOn(before: seq<int>, mem: seq<int>, i: nat, a: int)
    requires |before| >= KSTACK_TOP && i < NPROC && Parked(before, i)
    requires Agree(before, mem, ContextCell(i), StackTop(i))
    ensures var c := before[ContextCell(i)];
            && CanGoOn(FromContext(mem, a, c))
            && GoOn(FromContext(mem, a, c)).mem == mem && ResumedFrom(GoOn(FromContext(mem, a, c)).r, before, c)
  {
    var c := before[ContextCell(i)];
    assert mem[c] == before[c] && mem[c + 1] == before[c + 1] && mem[c + 2] == before[c + 2];
    assert mem[c + 3] == before[c + 3];
    assert mem[c + 4] == before[c + 4];
    assert before[c + 4] == YIELD_RESUME ==> mem[c + 7] == before[c + 7];
  }

  /** Saving the scheduler's context leaves the task's own words alone. */
  lemma TaskWordsStay(m: Machine, mem: seq<int>, i: nat, j: nat)
    requires |m.mem| >= KSTACK_TOP && i < NPROC && j < NPROC && KSTACK + 7 <= m.r.esp <= KSTACK_TOP
    requires SchedulerSaved(m, mem, i)
    ensures Agree(m.mem, mem, ContextCell(j), StackTop(j))
  {
  }

  lemma DispatchResumes(m: Machine, i: nat)
    requires |m.mem| >= KSTACK_TOP && i < NPROC && m.r.ebx == Proc(i) && KSTACK + 7 <= m.r.esp <= KSTACK_TOP
    requires Parked(m.mem, i)
    ensures CanSwitch(DispatchCall(m)) && CanGoOn(Switched(DispatchCall(m)))
    ensures SchedulerSaved(m, Dispatched(m).mem, i)
    ensures ResumedFrom(Dispatched(m).r, m.mem, m.mem[ContextCell(i)])
  {
    DispatchCalls(m, i);
    DispatchSaves(m, i);
    TaskWordsStay(m, SavedMem(DispatchCall(m)), i, i);
    ParkedGoesOn(m.mem, SavedMem(DispatchCall(m)), i, SCHED);
  }

  /** Dispatching a runnable slot puts its task in control. */
  lemma DispatchEntersTask(m: Machine, n: nat, i: nat, r: Machine)
    requires InScheduler(m, n) && i < n && Parked(m.mem, i) && m.r.ebx == Proc(i)
    requires SchedulerSaved(m, r.mem, i) && ResumedFrom(r.r, m.mem, m.mem[ContextCell(i)])
    ensures InTask(r, n, i)
  {
    forall k | 0 <= k < n && k != i ensures r.mem[Proc(k)] == RUNNABLE && Parked(r.mem, k) {
      ParkedStays(m.mem, r.mem, k);
    }
  }

  /** A parked task stays parked while its slot is left alone. */
  lemma ParkedStays(before: seq<int>, after: seq<int>, k: int)
    requires |before| >= KSTACK_TOP && 0 <= k < NPROC && Parked(before, k)
    requires Agree(before, after, ContextCell(k), StackTop(k))
    ensures Parked(after, k)
  {
    var c := before[ContextCell(k)];
    assert after[ContextCell(k)] == c && after[c + 4] == before[c + 4];
    assert before[c + 4] == YIELD_RESUME ==> after[c + 7] == before[c + 7];
  }

  // ----- a task yields

  /** There is room on the task's stack for the frames of yield and swtch. */
  predicate RoomToYield(m: Machine, j: int) {
    StackLow(j) + 8 <= m.r.esp
  }

  function Yielded(m: Machine, ra: int): Machine
    requires |m.mem| >= KSTACK_TOP && 0 <= m.mem[CURRENT] < NPROC
    requires StackLow(m.mem[CURRENT]) + 4 <= m.r.esp <= StackTop(m.mem[CURRENT])
    requires CanSwitch(YieldCall(m, ra)) && CanGoOn(Switched(YieldCall(m, ra)))
  {
    GoOn(Switched(YieldCall(m, ra)))
  }

  /** What yield and swtch write for task j: its state, its context pointer, its registers and
      return point, just below where its stack pointer was. */
  ghost predicate TaskSaved(m: Machine, mem: seq<int>, j: int, ra: int)
    requires |m.mem| >= KSTACK_TOP && 0 <= j < NPROC && StackLow(j) + 8 <= m.r.esp <= StackTop(j)
  {
    && |mem| == |m.mem|
    && mem[Proc(j)] == RUNNABLE && mem[ContextCell(j)] == m.r.esp - 8
    && mem[m.r.esp - 8] == m.r.edi && mem[m.r.esp - 7] == m.r.esi && mem[m.r.esp - 6] == m.r.ebx
    && mem[m.r.esp - 5] == m.r.ebp && mem[m.r.esp - 4] == YIELD_RESUME && mem[m.r.esp - 1] == ra
    && forall x :: 0 <= x < |mem| && x != Proc(j) && x != ContextCell(j) && !(m.r.esp - 8 <= x < m.r.esp) ==>
         mem[x] == m.mem[x]
  }

  lemma YieldCalls(m: Machine, j: int, ra: int)
    requires |m.mem| >= KSTACK_TOP && 0 <= j < NPROC && m.mem[CURRENT] == j
    requires StackLow(j) + 8 <= m.r.esp <= StackTop(j) && SchedulerParked(m.mem, j)
    ensures var b := YieldCall(m, ra);
            && CanSwitch(b) && |b.mem| == |m.mem|
            && b.r.esp == m.r.esp - 4 && b.mem[b.r.esp + 1] == ContextCell(j) && b.mem[b.r.esp + 2] == m.mem[SCHED]
            && b.mem[b.r.esp] == YIELD_RESUME && b.mem[m.r.esp - 1] == ra
            && b.r.edi == m.r.edi && b.r.esi == m.r.esi && b.r.ebx == m.r.ebx && b.r.ebp == m.r.ebp
            && b.mem[Proc(j)] == RUNNABLE
            && forall x :: 0 <= x < |m.mem| && x != Proc(j) && !(m.r.esp - 4 <= x < m.r.esp) ==> b.mem[x] == m.mem[x]
  {
  }

  lemma YieldSaves(m: Machine, j: int, ra: int)
    requires |m.mem| >= KSTACK_TOP && 0 <= j < NPROC && m.mem[CURRENT] == j
    requires StackLow(j) + 8 <= m.r.esp <= StackTop(j) && SchedulerParked(m.mem, j)
    ensures CanSwitch(YieldCall(m, ra)) && TaskSaved(m, SavedMem(YieldCall(m, ra)), j, ra)
  {
    YieldCalls(m, j, ra);
    SwitchSaves(YieldCall(m, ra));
  }

  /** The scheduler back in its loop after task j has yielded. */
  ghost predicate SchedulerResumed(before: seq<int>, r: Regs, j: int)
    requires |before| >= KSTACK_TOP && SchedulerParked(before, j)
  {
    var c := before[SCHED];
    && r.edi == before[c] && r.esi == before[c + 1] && r.ebp == before[c + 3] && r.esp == c + 7
    && r.ebx == NextProc(Proc(j)) && r.eip == SCHED_LOOP
  }

  lemma SchedulerGoesOn(before: seq<int>, mem: seq<int>, j: int, a: int)
    requires |before| >= KSTACK_TOP && 0 <= j < NPROC && SchedulerParked(before, j)
    requires Agree(before, mem, KSTACK, KSTACK_TOP)
    ensures var c := before[SCHED];
            && CanGoOn(FromContext(mem, a, c))
            && GoOn(FromContext(mem, a, c)).mem == mem[Proc(j) := RUNNABLE][CURRENT := -1]
            && SchedulerResumed(before, GoOn(FromContext(mem, a, c)).r, j)
  {
    var c := before[SCHED];
    assert mem[c] == before[c] && mem[c + 1] == before[c + 1] && mem[c + 2] == before[c + 2];
    assert mem[c + 3] == before[c + 3];
    assert mem[c + 4] == before[c + 4];
  }

  lemma KernelWordsStay(m: Machine, mem: seq<int>, j: int, ra: int)
    requires |m.mem| >= KSTACK_TOP && 0 <= j < NPROC && StackLow(j) + 8 <= m.r.esp <= StackTop(j)
    requires TaskSaved(m, mem, j, ra)
    ensures Agree(m.mem, mem, CURRENT, KSTACK_TOP)
  {
  }

  lemma YieldResumes(m: Machine, j: int, ra: int)
    requires |m.mem| >= KSTACK_TOP && 0 <= j < NPROC && m.mem[CURRENT] == j
    requires StackLow(j) + 8 <= m.r.esp <= StackTop(j) && SchedulerParked(m.mem, j)
    ensures CanSwitch(YieldCall(m, ra)) && CanGoOn(Switched(YieldCall(m, ra)))
    ensures TaskSaved(m, SavedMem(YieldCall(m, ra)), j, ra)
    ensures Yielded(m, ra).mem == SavedMem(YieldCall(m, ra))[Proc(j) := RUNNABLE][CURRENT := -1]
    ensures SchedulerResumed(m.mem, Yielded(m, ra).r, j)
  {
    YieldCalls(m, j, ra);
    YieldSaves(m, j, ra);
    KernelWordsStay(m, SavedMem(YieldCall(m, ra)), j, ra);
    SchedulerGoesOn(m.mem, SavedMem(YieldCall(m, ra)), j, ContextCell(j));
  }

  lemma YieldedSlots(m: Machine, j: int, ra: int, mem: seq<int>, after: seq<int>)
    requires |m.mem| >= KSTACK_TOP && 0 <= j < NPROC && StackLow(j) + 8 <= m.r.esp <= StackTop(j)
    requires TaskSaved(m, mem, j, ra) && after == mem[Proc(j) := RUNNABLE][CURRENT := -1]
    ensures forall k :: 0 <= k < NPROC ==> Agree(mem, after, ContextCell(k), StackTop(k))
    ensures forall k :: 0 <= k < NPROC && k != j ==> Agree(m.mem, after, Proc(k), StackTop(k))
  {
  }

  lemma YieldedParks(m: Machine, j: int, ra: int, mem: seq<int>, after: seq<int>)
    requires |m.mem| >= KSTACK_TOP && 0 <= j < NPROC && StackLow(j) + 8 <= m.r.esp <= StackTop(j) && TaskCode(ra)
    requires TaskSaved(m, mem, j, ra) && after == mem[Proc(j) := RUNNABLE][CURRENT := -1]
    ensures Parked(after, j) && after[Proc(j)] == RUNNABLE && after[CURRENT] == -1
  {
  }

  /** Yielding gives control back to the scheduler, with the task parked. */
  lemma YieldEntersScheduler(m: Machine, n: nat, j: int, ra: int, mem: seq<int>, r: Machine)
    requires InTask(m, n, j) && RoomToYield(m, j) && TaskCode(ra)
    requires TaskSaved(m, mem, j, ra) && r.mem == mem[Proc(j) := RUNNABLE][CURRENT := -1]
    requires SchedulerResumed(m.mem, r.r, j)
    ensures InScheduler(r, n) && |r.mem| == |m.mem|
    ensures forall k :: 0 <= k < NPROC ==> Agree(mem, r.mem, ContextCell(k), StackTop(k))
    ensures forall k :: 0 <= k < NPROC && k != j ==> Agree(m.mem, r.mem, Proc(k), StackTop(k))
  {
    YieldedSlots(m, j, ra, mem, r.mem);
    YieldedParks(m, j, ra, mem, r.mem);
    forall k | 0 <= k < n && k != j ensures r.mem[Proc(k)] == RUNNABLE && Parked(r.mem, k) {
      ParkedStays(m.mem, r.mem, k);
    }
    forall k | 0 <= k < NPROC && k != j ensures r.mem[Proc(k)] == m.mem[Proc(k)] {
    }
    NextProcIsProc(j);
  }

  lemma NextProcIsProc(j: int)
    requires 0 <= j < NPROC
    ensures NextProc(Proc(j)) == Proc(if j + 1 < NPROC then j + 1 else 0)
  {
  }
}
