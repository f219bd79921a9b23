/** Runs of the MLFQ scheduler: any interleaving of the steps, on any number of CPUs. */
module MlfqRuns {
  import opened Finite
  import opened Rings
  import opened Mlfq
  import opened Ageing

  datatype Cpu = Idle | Busy(p: nat, a: nat)

  /** flag: some CPU has entered scheduler() and reset the rings. booted: userinit is done. ticks: the clock. */
  datatype Sys = Sys(t: Table, cpus: seq<Cpu>, flag: bool, booted: bool, ticks: int, nextpid: nat)

  datatype Action =
    | Alloc(p: nat)                // allocproc: the first UNUSED process becomes EMBRYO
    | Abandon(p: nat)              // a failed fork: EMBRYO to UNUSED
    | Boot(p: nat)                 // the end of userinit
    | Start(c: nat, p: nat)        // the end of fork, called by the process on c
    | Reset                        // the first entry into scheduler()
    | Dispatch(c: nat)             // scheduler picks and starts a process
    | Yield(c: nat)                // the process on c gives up the CPU at a tick
    | Sleep(c: nat, chan: nat)
    | Exit(c: nat)                 // the process on c becomes a ZOMBIE
    | Reap(p: nat)                 // wait: ZOMBIE to UNUSED
    | Wakeup(chan: nat)            // by a process or by an interrupt
    | KillPid(c: nat, pid: nat)    // called by the process on c
    | Clock(now: int)              // the clock goes on
    | Charge(c: nat)               // a clock tick on CPU c: last_executed of its process
    | Age                          // the scheduler's ageing pass, at any time

  predicate Runs(s: Sys, c: nat)
  {
    c < |s.cpus| && s.cpus[c].Busy? && s.cpus[c].p < NPROC
  }

  ghost predicate Enabled(s: Sys, a: Action)
  {
    && WfLevels(s.t)
    && match a
       case Alloc(p) =>
         p < NPROC && s.t.proc[p].state == UNUSED && forall q :: 0 <= q < p ==> s.t.proc[q].state != UNUSED
       case Abandon(p) => p < NPROC && s.t.proc[p].state == EMBRYO
       case Boot(p) => !s.booted && p < NPROC && s.t.proc[p].state == EMBRYO
       case Start(c, p) => Runs(s, c) && p < NPROC && s.t.proc[p].state == EMBRYO
       case Reset => !s.flag
       case Dispatch(c) =>
         s.flag && c < |s.cpus| && s.cpus[c].Idle? && FirstLevel(s.t, 0) < LEVELS
             && Entries(s.t, FirstLevel(s.t, 0))[0] < NPROC
       case Yield(c) => Runs(s, c)
       case Sleep(c, chan) => Runs(s, c)
       case Exit(c) => Runs(s, c)
       case Reap(p) => p < NPROC && s.t.proc[p].state == ZOMBIE
       case Wakeup(chan) => true
       case KillPid(c, pid) => Runs(s, c)
       case Clock(now) => now >= s.ticks
       case Charge(c) => Runs(s, c)
       case Age => s.flag && LevelsOk(s.t, 1)
  }

  function SetProc(t: Table, p: nat, q: Proc): (t': Table)
    requires p < |t.proc|
  {
    t.(proc := t.proc[p := q])
  }

  /** scheduler()'s initialisation of queue_head and queue_tail. */
  function ResetRings(t: Table): (t': Table)
  {
    t.(head := seq(LEVELS, _ => 0), tail := seq(LEVELS, _ => 0))
  }

  /** The process on c has used up its slice with this tick. */
  predicate LastTick(s: Sys, c: nat)
    requires WfLevels(s.t) && Runs(s, c)
  {
    s.cpus[c].a + 1 >= Slice(s.t.proc[s.cpus[c].p].queue)
  }

  ghost function Do(s: Sys, a: Action): (s': Sys)
    requires Enabled(s, a)
  {
    match a
    case Alloc(p) =>
      s.(t := SetProc(s.t, p, Proc(EMBRYO, s.nextpid, 0, s.t.proc[p].chan, s.t.proc[p].killed, 0, 0, 60)),
         nextpid := s.nextpid + 1)
    case Abandon(p) => s.(t := SetState(s.t, p, UNUSED))
    case Boot(p) => s.(t := Enqueue(SetState(s.t, p, RUNNABLE), 0, p), booted := true)
    case Start(c, p) => s.(t := Enqueue(SetState(s.t, p, RUNNABLE), 0, p))
    case Reset => s.(t := ResetRings(s.t), flag := true)
    case Dispatch(c) =>
      var m := FirstLevel(s.t, 0);
      s.(t := RunHead(s.t, m), cpus := s.cpus[c := Busy(Entries(s.t, m)[0], 0)])
    case Yield(c) =>
      var p := s.cpus[c].p;
      if LastTick(s, c) then
        s.(t := Enqueue(SetState(s.t, p, RUNNABLE), Demoted(s.t.proc[p].queue), p), cpus := s.cpus[c := Idle])
      else
        // the scheduler's slice loop runs the process again at once
        s.(t := SetProc(s.t, p, s.t.proc[p].(numRun := s.t.proc[p].numRun + 1)),
            cpus := s.cpus[c := Busy(p, s.cpus[c].a + 1)])
    case Sleep(c, chan) =>
      var p := s.cpus[c].p;
      s.(t := SetProc(s.t, p, s.t.proc[p].(state := SLEEPING, chan := chan)), cpus := s.cpus[c := Idle])
    case Exit(c) => s.(t := SetState(s.t, s.cpus[c].p, ZOMBIE), cpus := s.cpus[c := Idle])
    case Reap(p) => s.(t := SetProc(s.t, p, s.t.proc[p].(state := UNUSED, pid := 0, killed := false)))
    case Wakeup(chan) => s.(t := WakeFrom(s.t, chan, 0))
    case KillPid(c, pid) => s.(t := Kill(s.t, pid))
    case Clock(now) => s.(ticks := now)
    case Charge(c) =>
      var p := s.cpus[c].p;
      s.(t := SetProc(s.t, p, s.t.proc[p].(lastExecuted := s.ticks)))
    case Age => s.(t := AgeFrom(s.t, 1, s.ticks))
  }

  // ---- the invariant ----

  /** Each busy CPU runs its own RUNNING process, within its slice. */
  ghost predicate CpusOk(s: Sys)
    requires WfLevels(s.t)
  {
    && (forall c :: 0 <= c < |s.cpus| && s.cpus[c].Busy? ==>
          && s.cpus[c].p < NPROC && s.t.proc[s.cpus[c].p].state == RUNNING
          && s.cpus[c].a < Slice(s.t.proc[s.cpus[c].p].queue))
    && (forall c, d :: 0 <= c < d < |s.cpus| && s.cpus[c].Busy? && s.cpus[d].Busy? ==> s.cpus[c].p != s.cpus[d].p)
  }

  /** Before userinit is done nothing has been started. */
  predicate BootOk(s: Sys)
  {
    !s.booted ==> forall p :: 0 <= p < |s.t.proc| ==> s.t.proc[p].state == UNUSED || s.t.proc[p].state == EMBRYO
  }

  ghost predicate Inv(s: Sys)
  {
    Consistent(s.t, {}) && CpusOk(s) && BootOk(s)
  }

  predicate NoneRunnable(proc: seq<Proc>)
  {
    forall p :: 0 <= p < |proc| ==> proc[p].state != RUNNABLE
  }

  /**
    What a step needs, told from the state before it: room in the ring for a process whose slice is over,
    a process that a wakeup would leave elsewhere or asleep, aged entries in front and room for them,
    and no reset of rings in use. Every other step is safe.
   */
  ghost predicate Safe(s: Sys, a: Action)
    requires Enabled(s, a)
  {
    match a
    case Yield(c) => LastTick(s, c) ==> |Entries(s.t, Demoted(s.t.proc[s.cpus[c].p].queue))| < NPROC - 1
    case Wakeup(chan) => forall l :: 0 <= l < LEVELS ==> !WakeFills(s.t, chan, l)
    case Age => PrefixShaped(s.t, s.ticks) && RoomFrom(s.t, 1, s.ticks)
    case Reset => NoneRunnable(s.t.proc)
    case _ => true
  }

  // ---- every step keeps the invariant exactly when it is safe ----

  lemma CpusKept(s: Sys, t': Table)
    requires WfLevels(s.t) && CpusOk(s) && WfLevels(t')
    requires forall p :: 0 <= p < NPROC && s.t.proc[p].state == RUNNING ==>
               t'.proc[p].state == RUNNING && t'.proc[p].queue == s.t.proc[p].queue
    ensures CpusOk(s.(t := t'))
  {}

  /** One CPU goes idle and only its process stops RUNNING. */
  lemma CpuFreed(s: Sys, t': Table, c: nat)
    requires WfLevels(s.t) && CpusOk(s) && WfLevels(t') && c < |s.cpus| && s.cpus[c].Busy?
    requires forall p :: 0 <= p < NPROC && p != s.cpus[c].p && s.t.proc[p].state == RUNNING ==>
               t'.proc[p].state == RUNNING && t'.proc[p].queue == s.t.proc[p].queue
    ensures CpusOk(s.(t := t', cpus := s.cpus[c := Idle]))
  {}

  /** A busy CPU means that userinit is done. */
  lemma BusyBooted(s: Sys, c: nat)
    requires Inv(s) && Runs(s, c)
    ensures s.booted && s.t.proc[s.cpus[c].p].state == RUNNING
  {
    hide Entries, RingOk;
  }

  /** Steps that enqueue nothing. */
  lemma QuietStep(s: Sys, a: Action)
    requires Inv(s) && Enabled(s, a)
    requires a.Alloc? || a.Abandon? || a.Sleep? || a.Exit? || a.Reap? || a.Charge?
    ensures Inv(Do(s, a))
  {
    hide Entries, RingOk;
    var s' := Do(s, a);
    var p := match a
      case Alloc(p) => p case Abandon(p) => p case Reap(p) => p
      case Sleep(c, _) => s.cpus[c].p case Exit(c) => s.cpus[c].p case Charge(c) => s.cpus[c].p;
    assert s'.t == SetProc(s.t, p, s'.t.proc[p]);
    ChangeIdle(s.t, p, s'.t.proc[p]);
    if a.Sleep? || a.Exit? { CpuFreed(s, s'.t, a.c); } else { CpusKept(s, s'.t); }
    if a.Sleep? || a.Exit? || a.Charge? { BusyBooted(s, a.c); }
  }

  lemma DispatchStep(s: Sys, c: nat)
    requires Inv(s) && Enabled(s, Dispatch(c))
    ensures Inv(Do(s, Dispatch(c)))
  {
    hide Entries, RingOk, FirstLevel;
    var m := FirstLevel(s.t, 0);
    RunHeadConsistent(s.t, m);
    var p := Entries(s.t, m)[0];
    DequeueProc(s.t, m);
    assert forall d :: 0 <= d < |s.cpus| && s.cpus[d].Busy? ==> s.cpus[d].p != p;
  }

  /** A process that is not RUNNABLE joins ring l: consistent afterwards exactly when the ring has room. */
  lemma JoinRing(t: Table, l: nat, p: nat)
    requires Consistent(t, {}) && p < NPROC && t.proc[p].state != RUNNABLE && l < LEVELS
    ensures var t' := Enqueue(SetState(t, p, RUNNABLE), l, p);
            && (Consistent(t', {}) <==> |Entries(t, l)| < NPROC - 1) && WfLevels(t')
            && forall q :: 0 <= q < NPROC && q != p ==> t'.proc[q] == t.proc[q]
  {
    hide Entries, RingOk;
    var t1 := SetState(t, p, RUNNABLE);
    MakePending(t, p);
    SameRings(t, t1, l);
    EnqueueExactly(t1, l, p);
  }

  /** Two processes that are not in ring l leave room in it. */
  lemma TwoOutside(t: Table, l: nat, p: nat, q: nat)
    requires Consistent(t, {}) && l < LEVELS && p < NPROC && q < NPROC && p != q
    requires t.proc[p].state != RUNNABLE && t.proc[q].state != RUNNABLE
    ensures |Entries(t, l)| < NPROC - 1
  {
    hide Entries;
    assert RingOk(t, l, {});
    var all := Entries(t, l) + [p, q];
    assert Distinct(all) && Below(all, NPROC);
    Covers(all, NPROC);
  }

  lemma StartStep(s: Sys, a: Action)
    requires Inv(s) && Enabled(s, a) && (a.Boot? || a.Start?)
    ensures Inv(Do(s, a))
  {
    hide Entries, RingOk, Enqueue;
    JoinRing(s.t, 0, a.p);
    if a.Boot? {
      TwoOutside(s.t, 0, a.p, if a.p == 0 then 1 else 0);
    } else {
      BusyBooted(s, a.c);
      TwoOutside(s.t, 0, a.p, s.cpus[a.c].p);
    }
    CpusKept(s, Do(s, a).t);
  }

  lemma YieldStep(s: Sys, c: nat)
    requires Inv(s) && Enabled(s, Yield(c))
    ensures Inv(Do(s, Yield(c))) <==> Safe(s, Yield(c))
  {
    hide Entries, RingOk, Enqueue;
    var p, s' := s.cpus[c].p, Do(s, Yield(c));
    BusyBooted(s, c);
    if LastTick(s, c) {
      JoinRing(s.t, Demoted(s.t.proc[p].queue), p);
      CpuFreed(s, s'.t, c);
    } else {
      ChangeIdle(s.t, p, s'.t.proc[p]);
    }
  }

  lemma WakeupStep(s: Sys, chan: nat)
    requires Inv(s) && Enabled(s, Wakeup(chan))
    ensures Inv(Do(s, Wakeup(chan))) <==> Safe(s, Wakeup(chan))
  {
    hide Entries, RingOk, WakeFrom;
    WakeupFits(s.t, chan);
    WakeProcs(s.t, chan, 0);
    CpusKept(s, WakeFrom(s.t, chan, 0));
  }

  lemma KillStep(s: Sys, c: nat, pid: nat)
    requires Inv(s) && Enabled(s, KillPid(c, pid))
    ensures Inv(Do(s, KillPid(c, pid)))
  {
    hide Entries, RingOk, Kill;
    BusyBooted(s, c);
    KillFits(s.t, pid);
    KillProcs(s.t, pid);
    CpusKept(s, Kill(s.t, pid));
  }

  lemma AgeStep(s: Sys)
    requires Inv(s) && Enabled(s, Age)
    ensures Inv(Do(s, Age)) <==> Safe(s, Age)
  {
    hide Entries, RingOk, AgedAt, AgeFrom, RaisedFrom, PrefixShaped, RoomFrom;
    var t' := AgeFrom(s.t, 1, s.ticks);
    AgeingExactly(s.t, s.ticks);
    PassProcs(s.t, 1, s.ticks);
    forall p | 0 <= p < NPROC && s.t.proc[p].state != RUNNABLE ensures t'.proc[p] == s.t.proc[p] {
      AgeingRaisesByOne(s.t, s.ticks, p);
    }
    CpusKept(s, t');
    if !s.booted {
      forall p | 0 <= p < NPROC ensures t'.proc[p].state == s.t.proc[p].state { AgeingRaisesByOne(s.t, s.ticks, p); }
    }
  }

  lemma ClockStep(s: Sys, now: int)
    requires Inv(s) && Enabled(s, Clock(now))
    ensures Inv(Do(s, Clock(now)))
  {
    hide Consistent;
  }

  /** Resetting the rings is harmless exactly while no process is RUNNABLE. */
  lemma ResetStep(s: Sys)
    requires Inv(s) && Enabled(s, Reset)
    ensures Inv(Do(s, Reset)) <==> NoneRunnable(s.t.proc)
  {
    var t' := ResetRings(s.t);
    forall l | 0 <= l < LEVELS ensures Entries(t', l) == [] && RingOk(t', l, {}) {}
    hide Entries;
    CpusKept(s, t');
  }

  /** Every step keeps the invariant exactly when the state before it meets the step's condition. */
  lemma StepExactly(s: Sys, a: Action)
    requires Inv(s) && Enabled(s, a)
    ensures Inv(Do(s, a)) <==> Safe(s, a)
  {
    hide Consistent, CpusOk, BootOk, Do, Inv;
    match a {
      case Boot(_) => StartStep(s, a);
      case Start(_, _) => StartStep(s, a);
      case Reset => ResetStep(s);
      case Dispatch(c) => DispatchStep(s, c);
      case Yield(c) => YieldStep(s, c);
      case Wakeup(chan) => WakeupStep(s, chan);
      case KillPid(c, pid) => KillStep(s, c, pid);
      case Age => AgeStep(s);
      case Clock(now) => ClockStep(s, now);
      case Alloc(_) => QuietStep(s, a);
      case Abandon(_) => QuietStep(s, a);
      case Sleep(_, _) => QuietStep(s, a);
      case Exit(_) => QuietStep(s, a);
      case Reap(_) => QuietStep(s, a);
      case Charge(_) => QuietStep(s, a);
    }
  }

  // ---- runs ----

  ghost predicate Run(s: Sys, acts: seq<Action>)
    decreases |acts|, 0
  {
    acts == [] || (Run(s, acts[..|acts| - 1]) && Enabled(After(s, acts[..|acts| - 1]), acts[|acts| - 1]))
  }

  ghost function After(s: Sys, acts: seq<Action>): (s': Sys)
    requires Run(s, acts)
    decreases |acts|, 1
  {
    if acts == [] then s else Do(After(s, acts[..|acts| - 1]), acts[|acts| - 1])
  }

  ghost predicate SafeRun(s: Sys, acts: seq<Action>)
  {
    Run(s, acts) && (acts == [] || (SafeRun(s, acts[..|acts| - 1])
        && Safe(After(s, acts[..|acts| - 1]), acts[|acts| - 1])))
  }

  /** All processes UNUSED, all rings empty, all CPUs idle: the kernel as it comes up. */
  ghost predicate Initial(s: Sys)
  {
    && WfTable(s.t) && !s.flag && !s.booted && s.ticks == 0 && s.nextpid == 1
    && (forall p :: 0 <= p < NPROC ==> s.t.proc[p].state == UNUSED && s.t.proc[p].queue == 0)
    && (forall l :: 0 <= l < LEVELS ==> s.t.head[l] == s.t.tail[l] == 0)
    && (forall c :: 0 <= c < |s.cpus| ==> s.cpus[c].Idle?)
  }

  lemma InitialInv(s: Sys)
    requires Initial(s)
    ensures Inv(s) && forall l :: 0 <= l < LEVELS ==> Entries(s.t, l) == []
  {
    forall l | 0 <= l < LEVELS ensures RingOk(s.t, l, {}) && Entries(s.t, l) == [] { assert Entries(s.t, l) == []; }
  }

  lemma {:induction false} RunKeepsInv(s: Sys, acts: seq<Action>)
    requires Inv(s) && SafeRun(s, acts)
    ensures Inv(After(s, acts))
  {
    if acts != [] {
      hide Inv, Do, Enabled, Safe;
      RunKeepsInv(s, acts[..|acts| - 1]);
      StepExactly(After(s, acts[..|acts| - 1]), acts[|acts| - 1]);
    }
  }

  /** Over every safe run from the start every RUNNABLE process is queued once, at its level, and nothing else is. */
  lemma RunInvariant(s: Sys, acts: seq<Action>)
    requires Initial(s) && SafeRun(s, acts)
    ensures Inv(After(s, acts))
  {
    InitialInv(s);
    RunKeepsInv(s, acts);
  }

  /** The first step of a run that is not safe breaks the invariant. */
  lemma UnsafeBreaks(s: Sys, acts: seq<Action>, a: Action)
    requires Initial(s) && SafeRun(s, acts) && Enabled(After(s, acts), a)
    ensures Inv(Do(After(s, acts), a)) <==> Safe(After(s, acts), a)
  {
    hide Inv, Do, Enabled, Safe, Initial;
    RunInvariant(s, acts);
    StepExactly(After(s, acts), a);
  }

  lemma ExtendRun(s: Sys, acts: seq<Action>, a: Action)
    requires SafeRun(s, acts) && Enabled(After(s, acts), a) && Safe(After(s, acts), a)
    ensures SafeRun(s, acts + [a]) && After(s, acts + [a]) == Do(After(s, acts), a)
  {
    hide Enabled, Safe, Do;
    assert (acts + [a])[..|acts|] == acts;
  }

  // ---- runs in which some process is never RUNNABLE ----

  /** Process q is not RUNNABLE in any state of the run. */
  ghost predicate NeverRunnable(s: Sys, acts: seq<Action>, q: nat)
    requires Run(s, acts)
  {
    && q < |After(s, acts).t.proc| && After(s, acts).t.proc[q].state != RUNNABLE
    && (acts == [] || NeverRunnable(s, acts[..|acts| - 1], q))
  }

  /** Aged entries come first whenever the ageing pass runs, and rings in use are not reset. */
  ghost predicate AgesInFront(s: Sys, acts: seq<Action>)
    requires Run(s, acts)
  {
    acts == [] ||
    var r, a := After(s, acts[..|acts| - 1]), acts[|acts| - 1];
    && AgesInFront(s, acts[..|acts| - 1])
    && (a.Age? ==> PrefixShaped(r.t, r.ticks)) && (a.Reset? ==> NoneRunnable(r.t.proc))
  }

  lemma IdleStepSafe(s: Sys, a: Action, q: nat)
    requires Inv(s) && Enabled(s, a) && q < NPROC && s.t.proc[q].state != RUNNABLE
    requires |Do(s, a).t.proc| == NPROC && Do(s, a).t.proc[q].state != RUNNABLE
    requires (a.Age? ==> PrefixShaped(s.t, s.ticks)) && (a.Reset? ==> NoneRunnable(s.t.proc))
    ensures Safe(s, a)
  {
    hide Entries, RingOk, WakeFrom, AgedAt, AgeFrom, Enqueue;
    match a {
      case Yield(c) =>
        BusyBooted(s, c);
        if LastTick(s, c) {
          var p := s.cpus[c].p;
          EnqueueProc(SetState(s.t, p, RUNNABLE), Demoted(s.t.proc[p].queue), p);
          TwoOutside(s.t, Demoted(s.t.proc[p].queue), p, q);
        }
      case Wakeup(chan) => WakeProcs(s.t, chan, 0);
      case Age => IdleGivesRoom(s.t, s.ticks);
      case _ =>
    }
  }

  lemma EnqueueProc(t: Table, l: nat, p: nat)
    requires WfTable(t) && l < LEVELS && p < NPROC
    ensures Enqueue(t, l, p).proc == t.proc[p := t.proc[p].(queue := l)]
  {}

  /** With one process that is never RUNNABLE, only the aged entries' place in their rings matters. */
  lemma {:induction false} IdleRunInvariant(s: Sys, acts: seq<Action>, q: nat)
    requires Initial(s) && Run(s, acts) && q < NPROC && NeverRunnable(s, acts, q) && AgesInFront(s, acts)
    ensures SafeRun(s, acts) && Inv(After(s, acts))
  {
    hide Enabled, Safe, Initial, Inv, Do, PrefixShaped, NoneRunnable;
    if acts == [] {
      InitialInv(s);
    } else {
      var before, a := acts[..|acts| - 1], acts[|acts| - 1];
      IdleRunInvariant(s, before, q);
      IdleLengths(After(s, before), a);
      IdleStepSafe(After(s, before), a, q);
      StepExactly(After(s, before), a);
    }
  }

  lemma IdleLengths(s: Sys, a: Action)
    requires Inv(s) && Enabled(s, a)
    ensures |s.t.proc| == |Do(s, a).t.proc| == NPROC
  {
    hide Entries, RingOk, Enqueue, WakeFrom, AgeFrom, Kill;
    match a {
      case Age => PassProcs(s.t, 1, s.ticks);
      case KillPid(_, pid) => KillProcs(s.t, pid);
      case Dispatch(c) => DequeueProc(s.t, FirstLevel(s.t, 0));
      case _ =>
    }
  }

  /**
    In every run state the process the scheduler is about to start is RUNNABLE, at the head of
    the lowest-numbered nonempty level, and queued nowhere else: the "process is sleeping"
    panic is unreachable.
   */
  lemma DispatchPicksHead(s: Sys, acts: seq<Action>)
    requires Initial(s) && SafeRun(s, acts)
    requires WfLevels(After(s, acts).t) && FirstLevel(After(s, acts).t, 0) < LEVELS
    ensures var t := After(s, acts).t;
            var m := FirstLevel(t, 0);
            var p := Entries(t, m)[0];
            && p < NPROC && t.proc[p].state == RUNNABLE && t.proc[p].queue == m && Pick(t, 0) == p
            && (forall l :: 0 <= l < m ==> Entries(t, l) == [])
            && (forall q :: 0 <= q < NPROC && t.proc[q].state == RUNNABLE ==> t.proc[q].queue >= m)
            && forall l, i :: 0 <= l < LEVELS && 0 <= i < |Entries(t, l)| && Entries(t, l)[i] == p ==> l == m && i == 0
  {
    hide Entries, After;
    RunInvariant(s, acts);
    var t := After(s, acts).t;
    var m := FirstLevel(t, 0);
    RunHeadConsistent(t, m);
    PickIsHead(t, 0);
    forall q | 0 <= q < NPROC && t.proc[q].state == RUNNABLE ensures t.proc[q].queue >= m {
      assert q in Entries(t, t.proc[q].queue);
    }
    forall l, i | 0 <= l < LEVELS && 0 <= i < |Entries(t, l)| && Entries(t, l)[i] == Entries(t, m)[0]
      ensures l == m && i == 0
    {
      assert RingOk(t, l, {}) && RingOk(t, m, {});
    }
  }
}
