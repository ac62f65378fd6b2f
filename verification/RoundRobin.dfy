/** Round robin: in which order the scheduler dispatches the slots, over whole runs. */
module RoundRobin {
  import opened ContextSwitch
  import opened Scheduler
  import opened SchedulerRuns

  /** The slot whose turn is next after slot j when n slots are used. */
  function Successor(j: nat, n: nat): nat {
    if j + 1 < n then j + 1 else 0
  }

  /** Dispatch k is of a used slot, and follows the one before it in round-robin order; slots
      are never given up. */
  ghost predicate Follows(log: seq<(nat, nat)>, k: nat)
    requires k < |log|
  {
    && log[k].0 < log[k].1 <= NPROC
    && (k == 0 ==> log[k].0 == 0)
    && (k > 0 ==> log[k].0 == Successor(log[k - 1].0, log[k].1) && log[k - 1].1 <= log[k].1)
  }

  /** A list of dispatches (slot, number of used slots) in round-robin order. */
  ghost predicate InOrder(log: seq<(nat, nat)>) {
    forall k: nat :: k < |log| ==> Follows(log, k)
  }

  /** Where the loop variable can be when slot j was the last dispatched of n. */
  ghost predicate OnTheWay(p: nat, j: nat, n: nat) {
    if j + 1 < n then p == j + 1 else p == 0 || n <= p < NPROC
  }

  /** The log is in order and leads up to the present. */
  ghost predicate Logged(w: World) {
    && Inv(w) && InOrder(w.log)
    && (w.log != [] ==> w.log[|w.log| - 1].1 <= w.n)
    && if w.m.r.eip == SCHED_LOOP
       then exists p: nat :: p < NPROC && w.m.r.ebx == Proc(p)
                             && if w.log == [] then p == 0 || w.n == 0 else OnTheWay(p, w.log[|w.log| - 1].0, w.n)
       else w.log != [] && w.log[|w.log| - 1].0 == w.m.mem[CURRENT]
  }

  lemma LogGrows(log: seq<(nat, nat)>, p: nat, n: nat)
    requires InOrder(log) && p < n <= NPROC
    requires if log == [] then p == 0 else log[|log| - 1].1 <= n && OnTheWay(p, log[|log| - 1].0, n)
    ensures InOrder(log + [(p, n)])
  {
    var longer := log + [(p, n)];
    forall k: nat | k < |longer| ensures Follows(longer, k) {
      assert k < |log| ==> Follows(log, k);
      assert k == |log| > 0 ==> Follows(log, k - 1);
    }
  }

  lemma TurnDispatches(w: World, p: nat)
    requires Logged(w) && AboutToDispatch(w, p)
    requires if w.log == [] then p == 0 || w.n == 0 else OnTheWay(p, w.log[|w.log| - 1].0, w.n)
    ensures Logged(After(w, Turn))
  {
    DispatchOf(w, p);
    TurnSaves(w, p);
    LogGrows(w.log, p, w.n);
  }

  lemma TurnSkips(w: World, p: nat)
    requires Logged(w) && w.m.r.eip == SCHED_LOOP && w.m.r.ebx == Proc(p) && p < NPROC && w.m.mem[Proc(p)] != RUNNABLE
    requires if w.log == [] then p == 0 || w.n == 0 else OnTheWay(p, w.log[|w.log| - 1].0, w.n)
    ensures Logged(After(w, Turn))
  {
    NextProcIsProc(p);
    var q := if p + 1 < NPROC then p + 1 else 0;
    assert After(w, Turn).m.r.ebx == Proc(q) && w.n <= p;
  }

  lemma TurnLogged(w: World)
    requires Logged(w) && w.m.r.eip == SCHED_LOOP
    ensures Logged(After(w, Turn))
  {
    var p: nat :| p < NPROC && w.m.r.ebx == Proc(p)
                  && if w.log == [] then p == 0 || w.n == 0 else OnTheWay(p, w.log[|w.log| - 1].0, w.n);
    if w.m.mem[Proc(p)] == RUNNABLE {
      TurnDispatches(w, p);
    } else {
      TurnSkips(w, p);
    }
  }

  lemma YieldLogged(w: World, ra: int)
    requires Logged(w) && Allowed(w, Yield(ra))
    ensures Logged(After(w, Yield(ra)))
  {
    YieldToNext(w, ra);
    var j := w.m.mem[CURRENT];
    assert OnTheWay(if j + 1 < NPROC then j + 1 else 0, j, w.n);
  }

  lemma LocalLogged(w: World, next: Machine)
    requires Logged(w) && Allowed(w, Local(next))
    ensures Logged(After(w, Local(next)))
  {
  }

  lemma SpawnLogged(w: World, fn: int)
    requires Logged(w) && Allowed(w, Spawn(fn))
    ensures Logged(After(w, Spawn(fn)))
  {
    SpawnGoesOn(w, fn);
  }

  /** In every run that starts at the first slot, the dispatches are in round-robin order. */
  lemma {:induction false} RunsAreRoundRobin(w: World, es: seq<Event>)
    requires Logged(w) && Legal(w, es)
    ensures Logged(Run(w, es))
    decreases |es|
  {
    if es != [] {
      match es[0] {
        case Turn => TurnLogged(w);
        case Local(next) => LocalLogged(w, next);
        case Spawn(fn) => SpawnLogged(w, fn);
        case Yield(ra) => YieldLogged(w, ra);
      }
      RunsAreRoundRobin(After(w, es[0]), es[1..]);
    }
  }

  /** The scheduler started with nothing dispatched yet. */
  lemma StartIsLogged(m: Machine, n: nat)
    requires InScheduler(m, n) && m.r.ebx == Proc(0)
    ensures Logged(World(m, n, []))
  {
  }

  // ----- what the order means

  /** From a dispatch of slot i on, the slots above it that are used by the next dispatch get
      their turns one after the other. */
  lemma {:induction false} Climbs(log: seq<(nat, nat)>, a: nat, d: nat)
    requires InOrder(log) && a + d < |log| && (d > 0 ==> log[a].0 + d < log[a + 1].1)
    ensures log[a + d].0 == log[a].0 + d && (d > 0 ==> log[a + 1].1 <= log[a + d].1)
  {
    if d > 0 {
      if d > 1 {
        Climbs(log, a, d - 1);
      }
      assert Follows(log, a + d);
    }
  }

  /** Before a dispatch of slot i, the slots below it have had their turns one after the other. */
  lemma {:induction false} Descends(log: seq<(nat, nat)>, b: nat, d: nat)
    requires InOrder(log) && b < |log| && d <= log[b].0
    ensures d <= b && log[b - d].0 == log[b].0 - d
  {
    if d > 0 {
      Descends(log, b, d - 1);
      assert Follows(log, b - d + 1);
    }
  }

  /** A sweep: from a dispatch of slot 0 to the next one, the used slots are dispatched each
      exactly once, in index order. */
  lemma SweepIsInOrder(log: seq<(nat, nat)>, a: nat, b: nat)
    requires InOrder(log) && a < b < |log| && log[a].0 == log[b].0 == 0
    requires forall c :: a < c < b ==> log[c].0 != 0
    ensures forall c :: a <= c < b ==> log[c].0 == c - a
    ensures log[b - 1].0 + 1 == log[b].1
  {
    forall c | a <= c < b ensures log[c].0 == c - a {
      Descends(log, c, if log[c].0 < c - a then log[c].0 else c - a);
    }
    assert Follows(log, b) && Follows(log, b - 1);
  }

  lemma HigherRuns(log: seq<(nat, nat)>, a: nat, b: nat, k: nat)
    requires InOrder(log) && a < b < |log| && log[a].0 == log[b].0 < k < log[a + 1].1
    ensures a + (k - log[a].0) < b && log[a + (k - log[a].0)].0 == k
  {
    var d := k - log[a].0;
    Climbs(log, a, if d < b - a then d else b - a);
  }

  lemma LowerRuns(log: seq<(nat, nat)>, a: nat, b: nat, k: nat)
    requires InOrder(log) && a < b < |log| && log[a].0 == log[b].0 > k
    ensures a < b - (log[b].0 - k) && log[b - (log[b].0 - k)].0 == k
  {
    var d := log[b].0 - k;
    Descends(log, b, if d < b - a then d else b - a);
  }

  /** Fairness: between two dispatches of the same slot every other slot that was used by the
      dispatch after the first is dispatched. */
  lemma EveryoneElseRuns(log: seq<(nat, nat)>, a: nat, b: nat, k: nat)
    requires InOrder(log) && a < b < |log| && log[a].0 == log[b].0 && k != log[a].0 && k < log[a + 1].1
    ensures exists c :: a < c < b && log[c].0 == k
  {
    if log[a].0 < k {
      HigherRuns(log, a, b, k);
      assert log[a + (k - log[a].0)].0 == k;
    } else {
      LowerRuns(log, a, b, k);
      assert log[b - (log[b].0 - k)].0 == k;
    }
  }

  /** `later` is a world that a run reaches from one with this log and n used slots: dispatches
      have only been added, the first of them with at least n slots used. */
  ghost predicate Continues(log: seq<(nat, nat)>, n: nat, later: World) {
    log <= later.log && n <= later.n && (|log| < |later.log| ==> n <= later.log[|log|].1)
  }

  lemma EventContinues(w: World, e: Event)
    requires Inv(w) && Allowed(w, e)
    ensures Continues(w.log, w.n, After(w, e))
    ensures After(w, e).log == w.log || |After(w, e).log| == |w.log| + 1
  {
    match e
    case Turn =>
      if w.m.mem[w.m.r.ebx] == RUNNABLE {
        var i := RunnableSlot(w.m, w.n);
        assert After(w, Turn).log == w.log + [(i, w.n)];
      }
    case Local(_) =>
    case Spawn(fn) => SpawnGoesOn(w, fn);
    case Yield(ra) => YieldToNext(w, ra);
  }

  lemma {:induction false} RunContinues(w: World, es: seq<Event>)
    requires Inv(w) && Legal(w, es)
    ensures Continues(w.log, w.n, Run(w, es))
    decreases |es|
  {
    if es != [] {
      EventContinues(w, es[0]);
      RunContinues(After(w, es[0]), es[1..]);
      BothContinue(w, After(w, es[0]), Run(w, es));
    }
  }

  lemma BothContinue(w: World, mid: World, last: World)
    requires Continues(w.log, w.n, mid) && Continues(mid.log, mid.n, last)
    ensures Continues(w.log, w.n, last)
  {
    assert |w.log| < |mid.log| ==> mid.log[|w.log|] == last.log[|w.log|];
    assert forall k :: 0 <= k < |w.log| ==> w.log[k] == mid.log[k] == last.log[k];
  }

  /** A task spawned by a running task runs before its spawner runs again: in every run after the
      spawn, any dispatch of the spawner comes after one of the new slot. */
  lemma SpawnedRunsFirst(w: World, fn: int, es: seq<Event>, b: nat)
    requires Logged(w) && Allowed(w, Spawn(fn)) && w.n < NPROC && Legal(After(w, Spawn(fn)), es)
    requires var log := Run(After(w, Spawn(fn)), es).log; |w.log| <= b < |log| && log[b].0 == w.m.mem[CURRENT]
    ensures var log := Run(After(w, Spawn(fn)), es).log; exists c :: |w.log| <= c < b && log[c].0 == w.n
  {
    hide SchedulerRuns.After, Inv, Run, Legal, Allowed, InOrder, Continues;
    var w' := After(w, Spawn(fn));
    SpawnGoesOn(w, fn);
    SpawnFrames(w, fn);
    SpawnLogged(w, fn);
    RunsAreRoundRobin(w', es);
    RunContinues(w', es);
    SpawnerIsLogged(w, fn);
    NewSlotFirst(w.log, w.n, Run(w', es), b);
  }

  lemma SpawnerIsLogged(w: World, fn: int)
    requires Logged(w) && Allowed(w, Spawn(fn))
    ensures w.log != [] && w.log[|w.log| - 1].0 == w.m.mem[CURRENT] < w.n
  {
  }

  lemma NewSlotFirst(log: seq<(nat, nat)>, k: nat, later: World, b: nat)
    requires log != [] && log[|log| - 1].0 < k && Continues(log, k + 1, later) && InOrder(later.log)
    requires |log| <= b < |later.log| && later.log[b].0 == log[|log| - 1].0
    ensures exists c :: |log| <= c < b && later.log[c].0 == k
  {
    assert later.log[|log| - 1] == log[|log| - 1];
    EveryoneElseRuns(later.log, |log| - 1, b, k);
  }

  /** How many slots are used never shrinks. */
  lemma {:induction false} CountsGrow(log: seq<(nat, nat)>, a: nat, b: nat)
    requires InOrder(log) && a <= b < |log|
    ensures log[a].1 <= log[b].1
  {
    if a < b {
      CountsGrow(log, a, b - 1);
      assert Follows(log, b);
    }
  }

  /** The order comes back to slot 0. */
  lemma {:induction false} WrapsSoon(log: seq<(nat, nat)>, a: nat) returns (b: nat)
    requires InOrder(log) && a < |log| && a + NPROC - log[a].0 < |log|
    ensures a < b <= a + NPROC - log[a].0 && log[b].0 == 0
    decreases NPROC - log[a].0
  {
    assert Follows(log, a) && Follows(log, a + 1);
    b := a + 1;
    if log[a + 1].0 != 0 {
      b := WrapsSoon(log, a + 1);
    }
  }

  /** Bounded waiting: a slot in use is dispatched again within the next eight dispatches,
      whatever is spawned meanwhile. */
  lemma TurnWithinEight(log: seq<(nat, nat)>, a: nat, k: nat)
    requires InOrder(log) && a + NPROC < |log| && k < log[a].1
    ensures exists c :: a < c <= a + NPROC && log[c].0 == k
  {
    assert Follows(log, a);
    if log[a].0 < k {
      CountsGrow(log, a, a + 1);
      Climbs(log, a, k - log[a].0);
      assert log[a + (k - log[a].0)].0 == k;
    } else {
      var b := WrapsSoon(log, a);
      if k > 0 {
        CountsGrow(log, a, b + 1);
        Climbs(log, b, k);
      }
      assert log[b + k].0 == k;
    }
  }

  // ----- the scheduler does not search for long

  ghost function Turns(t: nat): seq<Event> {
    if t == 0 then [] else [Turn] + Turns(t - 1)
  }

  /** After t turns, in which it is away, slot i is about to be dispatched. */
  ghost predicate FoundAfter(w: World, t: nat, i: nat)
    requires Inv(w)
  {
    Legal(w, Turns(t)) && AwayAlong(w, Turns(t), i) && AboutToDispatch(Run(w, Turns(t)), i)
  }

  lemma OneMoreTurn(w: World, t: nat, i: nat)
    requires Inv(w) && w.m.r.eip == SCHED_LOOP && FoundAfter(After(w, Turn), t, i)
    ensures FoundAfter(w, t + 1, i)
  {
    var es := Turns(t + 1);
    assert es[0] == Turn && es[1..] == Turns(t);
  }

  lemma UsedIsRunnable(w: World, p: nat)
    requires Inv(w) && w.m.r.eip == SCHED_LOOP && p < NPROC && w.m.r.ebx == Proc(p)
    ensures p < w.n ==> AboutToDispatch(w, p)
    ensures p >= w.n ==>
              var r := After(w, Turn);
              && r.m.r.eip == SCHED_LOOP && r.n == w.n && r.m.r.ebx == Proc(if p + 1 < NPROC then p + 1 else 0)
  {
    NextProcIsProc(p);
  }

  /** As long as any slot is used the scheduler dispatches after at most seven skipped slots. */
  lemma {:induction false} DispatchComes(w: World, p: nat) returns (t: nat)
    requires Inv(w) && w.m.r.eip == SCHED_LOOP && w.n > 0 && p < NPROC && w.m.r.ebx == Proc(p)
    ensures t <= (if p == 0 then 0 else NPROC - p) && FoundAfter(w, t, if p < w.n then p else 0)
    decreases if p == 0 then 0 else NPROC - p
  {
    UsedIsRunnable(w, p);
    t := 0;
    if p >= w.n {
      t := DispatchComes(After(w, Turn), if p + 1 < NPROC then p + 1 else 0);
      OneMoreTurn(w, t, 0);
      t := t + 1;
    }
  }

  /** A yield of the only task does return, and by transparency to where it was called. */
  lemma LoneYieldReturns(w: World, ra: int) returns (t: nat)
    requires Inv(w) && Allowed(w, Yield(ra)) && w.n == 1
    ensures t < NPROC && Legal(After(w, Yield(ra)), Turns(t))
    ensures var found := Run(After(w, Yield(ra)), Turns(t));
            AboutToDispatch(found, 0) && Returned(w.m, After(found, Turn).m, 0, ra)
  {
    YieldToNext(w, ra);
    t := DispatchComes(After(w, Yield(ra)), 1);
    YieldIsTransparent(w, ra, Turns(t), 0);
  }
}
