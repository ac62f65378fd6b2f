/** The scheduler's functions as code on the processor, statement by statement, each proved to
    do what the step of the same name does. */
module KernelCode {
  import opened ContextSwitch
  import opened Scheduler
  import opened SchedulerRuns
  import opened RoundRobin

  /** sched_init. */
  method SchedInit(cpu: Cpu)
    requires cpu.mem.Length >= KSTACK_TOP
    modifies cpu.mem
    ensures UsedPrefix(cpu.mem[..], 0) && cpu.mem[CURRENT] == -1 && cpu.mem[SCHED] == 0
  {
    for i := 0 to NPROC
      invariant forall k :: 0 <= k < i ==> cpu.mem[Proc(k)] == UNUSED
    {
      cpu.mem[Proc(i)] := UNUSED;
    }
    cpu.mem[CURRENT] := -1;
    cpu.mem[SCHED] := 0;
  }

  /** task_l_spawn: the slot, or -1 when all are used; it is left in eax. */
  method TaskSpawn(cpu: Cpu, fn: int)
    requires cpu.mem.Length >= KSTACK_TOP
    modifies cpu`eax, cpu.mem
    ensures cpu.State() == Spawned(old(cpu.State()), fn)
  {
    var i := 0;
    while i < NPROC && cpu.mem[Proc(i)] != UNUSED
      invariant i <= NPROC && FirstUnused(cpu.mem[..], 0) == FirstUnused(cpu.mem[..], i)
    {
      i := i + 1;
    }
    if i == NPROC {
      cpu.eax := -1;
      return;
    }
    BuildFrame(cpu, i, fn);
    cpu.eax := i;
  }

  /** The stores of task_l_spawn once a slot is found. */
  method BuildFrame(cpu: Cpu, k: nat, fn: int)
    requires cpu.mem.Length >= KSTACK_TOP && k < NPROC
    modifies cpu.mem
    ensures cpu.mem[..] == SpawnedMem(old(cpu.mem[..]), k, fn)
  {
    var sp := StackLow(k) + 1023;
    sp := sp - 1;
    cpu.mem[sp] := fn;
    sp := sp - 1;
    cpu.mem[sp] := 0;
    sp := sp - 20;
    cpu.mem[ContextCell(k)] := sp;
    cpu.mem[sp + 3] := 0;
    cpu.mem[sp + 2] := 0;
    cpu.mem[sp + 1] := 0;
    cpu.mem[sp] := 0;
    cpu.mem[sp + 4] := fn;
    cpu.mem[Proc(k)] := RUNNABLE;
  }

  /** Spawning before the scheduler has started. */
  lemma SpawnAtBoot(mem: seq<int>, n: nat, fn: int)
    requires |mem| >= KSTACK_TOP && UsedPrefix(mem, n) && OthersParked(mem, n, -1) && n < NPROC && TaskCode(fn)
    ensures FirstUnused(mem, 0) == n
    ensures var r := SpawnedMem(mem, n, fn);
            UsedPrefix(r, n + 1) && OthersParked(r, n + 1, -1) && FreshFrame(r, n, fn) && r[CURRENT] == mem[CURRENT] &&
            forall k :: 0 <= k < n ==> SlotSame(mem, r, k)
  {
    FirstUnusedIsCount(mem, n);
    SpawnWrites(mem, n, fn);
    var r := SpawnedMem(mem, n, fn);
    forall k | 0 <= k < n + 1 ensures r[Proc(k)] == RUNNABLE && Parked(r, k) {
      if k < n {
        ParkedStays(mem, r, k);
      }
    }
  }

  /** Memory after sched_init and two spawns. */
  lemma TwoSpawned(mem: seq<int>, task1: int, sh: int)
    requires |mem| >= KSTACK_TOP && UsedPrefix(mem, 0) && mem[CURRENT] == -1 && TaskCode(task1) && TaskCode(sh)
    ensures FirstUnused(mem, 0) == 0 && FirstUnused(SpawnedMem(mem, 0, task1), 0) == 1
    ensures ReadyToRun(SpawnedMem(SpawnedMem(mem, 0, task1), 1, sh), task1, sh)
  {
    hide SpawnedMem;
    var mem1 := SpawnedMem(mem, 0, task1);
    SpawnAtBoot(mem, 0, task1);
    SpawnAtBoot(mem1, 1, sh);
    FreshStaysFresh(mem1, SpawnedMem(mem1, 1, sh), 0, task1);
  }

  /** Slots 0 and 1 hold tasks that have not run, and no task is current. */
  ghost predicate ReadyToRun(mem: seq<int>, task1: int, sh: int) {
    && |mem| >= KSTACK_TOP && UsedPrefix(mem, 2) && OthersParked(mem, 2, -1) && mem[CURRENT] == -1
    && FreshFrame(mem, 0, task1) && FreshFrame(mem, 1, sh)
  }

  /** The end of kmain: two tasks are spawned and the scheduler is entered; all that the
      theorems about runs start from holds. */
  method Boot(cpu: Cpu, task1: int, sh: int, context: int)
    requires cpu.mem.Length >= KSTACK_TOP && KSTACK + 7 <= cpu.esp <= KSTACK_TOP && TaskCode(task1) && TaskCode(sh)
    modifies cpu, cpu.mem
    ensures ReadyToRun(cpu.mem[..], task1, sh) && InScheduler(cpu.State(), 2) && Logged(World(cpu.State(), 2, []))
  {
    hide SpawnedMem, UsedPrefix, OthersParked, FreshFrame, InScheduler, Logged, ReadyToRun;
    SchedInit(cpu);
    TwoSpawned(cpu.mem[..], task1, sh);
    TaskSpawn(cpu, task1);
    TaskSpawn(cpu, sh);
    EnterScheduler(cpu, task1, sh, context);
  }

  /** The start of m_scheduler. */
  method EnterScheduler(cpu: Cpu, ghost task1: int, ghost sh: int, context: int)
    requires ReadyToRun(cpu.mem[..], task1, sh) && KSTACK + 7 <= cpu.esp <= KSTACK_TOP
    modifies cpu`ebx, cpu`eip, cpu.mem
    ensures ReadyToRun(cpu.mem[..], task1, sh) && InScheduler(cpu.State(), 2) && Logged(World(cpu.State(), 2, []))
  {
    ContextCellIsFree(cpu.mem[..], task1, sh, context);
    ghost var mem := cpu.mem[..];
    cpu.mem[SCHED] := context;
    assert cpu.mem[..] == mem[SCHED := context];
    cpu.ebx := Proc(0);
    cpu.eip := SCHED_LOOP;
    StartIsLogged(cpu.State(), 2);
  }

  lemma ContextCellIsFree(mem: seq<int>, task1: int, sh: int, context: int)
    requires ReadyToRun(mem, task1, sh)
    ensures ReadyToRun(mem[SCHED := context], task1, sh)
  {
    var after := mem[SCHED := context];
    forall k | 0 <= k < 2 ensures after[Proc(k)] == RUNNABLE && Parked(after, k) {
      ParkedStays(mem, after, k);
    }
    FreshStaysFresh(mem, after, 0, task1);
    FreshStaysFresh(mem, after, 1, sh);
  }

  /** What follows a return from swtch, wherever that is. */
  method Resume(cpu: Cpu)
    requires CanGoOn(cpu.State())
    modifies cpu, cpu.mem
    ensures cpu.State() == GoOn(old(cpu.State()))
  {
    if cpu.eip == SCHED_RESUME {
      cpu.esp := cpu.esp + 2;
      cpu.mem[cpu.ebx] := RUNNABLE;
      cpu.mem[CURRENT] := -1;
      cpu.ebx := NextProc(cpu.ebx);
      cpu.eip := SCHED_LOOP;
    } else if cpu.eip == YIELD_RESUME {
      cpu.esp := cpu.esp + 2;
      cpu.eip := cpu.PopWord();
    }
  }

  /** One turn of the loop of m_scheduler, whose variable p is in ebx. */
  method SchedulerTurn(cpu: Cpu)
    requires cpu.mem.Length >= KSTACK_TOP && 0 <= cpu.ebx < CURRENT && KSTACK + 3 <= cpu.esp <= KSTACK_TOP
    requires cpu.mem[cpu.ebx] == RUNNABLE ==>
               CanSwitch(DispatchCall(cpu.State())) && CanGoOn(Switched(DispatchCall(cpu.State())))
    modifies cpu, cpu.mem
    ensures old(cpu.mem[cpu.ebx]) == RUNNABLE ==> cpu.State() == Dispatched(old(cpu.State()))
    ensures old(cpu.mem[cpu.ebx]) != RUNNABLE ==>
              cpu.State() == old(cpu.State()).(r := old(cpu.State()).r.(ebx := NextProc(old(cpu.ebx))))
  {
    if cpu.mem[cpu.ebx] != RUNNABLE {
      cpu.ebx := NextProc(cpu.ebx);
      return;
    }
    CallSwtchForDispatch(cpu);
    cpu.Swtch();
    Resume(cpu);
  }

  method CallSwtchForDispatch(cpu: Cpu)
    requires cpu.mem.Length >= KSTACK_TOP && 0 <= cpu.ebx < CURRENT && KSTACK + 3 <= cpu.esp <= KSTACK_TOP
    modifies cpu`esp, cpu.mem
    ensures cpu.State() == DispatchCall(old(cpu.State()))
  {
    cpu.mem[CURRENT] := cpu.ebx / PROC_WORDS;
    cpu.mem[cpu.ebx] := RUNNING;
    cpu.PushWord(cpu.mem[cpu.ebx + 1]);
    cpu.PushWord(SCHED);
    cpu.PushWord(SCHED_RESUME);
  }

  /** A call of yield that returns to `ra`; when no task is current it returns at once. */
  method CallYield(cpu: Cpu, ra: int)
    requires cpu.mem.Length >= KSTACK_TOP && cpu.mem[CURRENT] < NPROC
    requires cpu.mem[CURRENT] >= 0 ==>
               && StackLow(cpu.mem[CURRENT]) + 4 <= cpu.esp <= StackTop(cpu.mem[CURRENT])
               && CanSwitch(YieldCall(cpu.State(), ra)) && CanGoOn(Switched(YieldCall(cpu.State(), ra)))
    modifies cpu, cpu.mem
    ensures old(cpu.mem[CURRENT]) >= 0 ==> cpu.State() == Yielded(old(cpu.State()), ra)
    ensures old(cpu.mem[CURRENT]) < 0 ==> cpu.State() == old(cpu.State()).(r := old(cpu.State()).r.(eip := ra))
  {
    if cpu.mem[CURRENT] < 0 {
      cpu.eip := ra;
      return;
    }
    CallSwtchForYield(cpu, ra);
    cpu.Swtch();
    Resume(cpu);
  }

  method CallSwtchForYield(cpu: Cpu, ra: int)
    requires cpu.mem.Length >= KSTACK_TOP && 0 <= cpu.mem[CURRENT] < NPROC
    requires StackLow(cpu.mem[CURRENT]) + 4 <= cpu.esp <= StackTop(cpu.mem[CURRENT])
    modifies cpu`esp, cpu.mem
    ensures cpu.State() == YieldCall(old(cpu.State()), ra)
  {
    cpu.PushWord(ra);
    var p := Proc(cpu.mem[CURRENT]);
    cpu.mem[p] := RUNNABLE;
    cpu.PushWord(cpu.mem[SCHED]);
    cpu.PushWord(p + 1);
    cpu.PushWord(YIELD_RESUME);
  }
}
