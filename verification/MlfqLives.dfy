/** What becomes of each process over the runs of the MLFQ scheduler: its states, its CPU, its pid and its accounts. */
module MlfqLives {
  import opened Rings
  import opened Mlfq
  import opened Ageing
  import opened MlfqRuns

  // ---- the life of a process ----

  /** How a process may go from one state to another. */
  predicate Edge(from: ProcState, to: ProcState)
  {
    match from
    case UNUSED => to == EMBRYO
    case EMBRYO => to == UNUSED || to == RUNNABLE
    case SLEEPING => to == RUNNABLE
    case RUNNABLE => to == RUNNING
    case RUNNING => to == RUNNABLE || to == SLEEPING || to == ZOMBIE
    case ZOMBIE => to == UNUSED
  }

  lemma StateEdges(s: Sys, a: Action, p: nat)
    requires Inv(s) && Enabled(s, a) && p < NPROC
    ensures |Do(s, a).t.proc| == NPROC
    ensures Do(s, a).t.proc[p].state == s.t.proc[p].state || Edge(s.t.proc[p].state, Do(s, a).t.proc[p].state)
  {
    hide Entries, WakeFrom, AgeFrom, Kill;
    match a
    case Wakeup(chan) => WakeProcs(s.t, chan, 0);
    case KillPid(c, pid) => KillProcs(s.t, pid);
    case Age => PassProcs(s.t, 1, s.ticks);
    case Dispatch(c) => assert RingOk(s.t, FirstLevel(s.t, 0), {});
    case _ =>
  }

  // ---- who runs ----

  predicate OnCpu(s: Sys, p: nat)
  {
    exists c :: 0 <= c < |s.cpus| && s.cpus[c].Busy? && s.cpus[c].p == p
  }

  /** Whoever is RUNNING is on a CPU. */
  ghost predicate Placed(s: Sys)
  {
    forall p :: 0 <= p < |s.t.proc| && s.t.proc[p].state == RUNNING ==> OnCpu(s, p)
  }

  lemma StaysOnCpu(s: Sys, s': Sys, p: nat)
    requires OnCpu(s, p) && |s'.cpus| == |s.cpus|
    requires forall c :: 0 <= c < |s.cpus| && s.cpus[c].Busy? && s.cpus[c].p == p ==>
             s'.cpus[c].Busy? && s'.cpus[c].p == p
    ensures OnCpu(s', p)
  {
    var c :| 0 <= c < |s.cpus| && s.cpus[c].Busy? && s.cpus[c].p == p;
    assert s'.cpus[c].p == p;
  }

  lemma StepPlaces(s: Sys, a: Action)
    requires Inv(s) && Placed(s) && Enabled(s, a)
    ensures Placed(Do(s, a))
  {
    hide Inv, Do, Enabled, Placed;
    if a.Dispatch? { DispatchPlaces(s, a.c); } else { OtherPlaces(s, a); }
  }

  lemma DispatchPlaces(s: Sys, c: nat)
    requires Inv(s) && Placed(s) && Enabled(s, Dispatch(c))
    ensures Placed(Do(s, Dispatch(c)))
  {
    hide Entries, RingOk, FirstLevel;
    var s' := Do(s, Dispatch(c));
    forall p | 0 <= p < |s'.t.proc| && s'.t.proc[p].state == RUNNING ensures OnCpu(s', p) {
      if p != s'.cpus[c].p {
        assert OnCpu(s, p);
        StaysOnCpu(s, s', p);
      }
    }
  }

  lemma OtherPlaces(s: Sys, a: Action)
    requires Inv(s) && Placed(s) && Enabled(s, a) && !a.Dispatch?
    ensures Placed(Do(s, a))
  {
    hide Entries, RingOk, WakeFrom, AgeFrom, Kill;
    var s' := Do(s, a);
    match a {
      case Wakeup(chan) => WakeProcs(s.t, chan, 0);
      case KillPid(c, pid) => KillProcs(s.t, pid);
      case Age => PassProcs(s.t, 1, s.ticks);
      case _ =>
    }
    forall p | 0 <= p < |s'.t.proc| && s'.t.proc[p].state == RUNNING ensures OnCpu(s', p) {
      assert OnCpu(s, p);
      StaysOnCpu(s, s', p);
    }
  }

  lemma {:induction false} RunPlaces(s: Sys, acts: seq<Action>)
    requires Initial(s) && SafeRun(s, acts)
    ensures Placed(After(s, acts))
  {
    if acts != [] {
      hide Do, Enabled, Safe, Initial, Inv, Placed;
      var n := |acts| - 1;
      RunPlaces(s, acts[..n]);
      RunInvariant(s, acts[..n]);
      StepPlaces(After(s, acts[..n]), acts[n]);
    }
  }

  /** In every run the RUNNING processes are exactly those on a CPU. */
  lemma RunningIsOnCpu(s: Sys, acts: seq<Action>, p: nat)
    requires Initial(s) && SafeRun(s, acts) && p < NPROC
    ensures |After(s, acts).t.proc| == NPROC
    ensures After(s, acts).t.proc[p].state == RUNNING <==> OnCpu(After(s, acts), p)
  {
    hide Run, SafeRun, After, Initial, Entries, RingOk;
    RunPlaces(s, acts);
    RunInvariant(s, acts);
  }

  // ---- coming and going ----

  /** A process that exits and is reaped leaves its CPU idle and its slot UNUSED, and everything else as it was. */
  lemma ExitThenReap(s: Sys, c: nat)
    requires Inv(s) && Runs(s, c)
    ensures Enabled(s, Exit(c)) && Enabled(Do(s, Exit(c)), Reap(s.cpus[c].p))
    ensures var p, s' := s.cpus[c].p, Do(Do(s, Exit(c)), Reap(s.cpus[c].p));
            && s'.t.proc[p].state == UNUSED && s'.t.proc[p].pid == 0 && !s'.t.proc[p].killed && s'.cpus[c].Idle?
            && (forall q :: 0 <= q < NPROC && q != p ==> s'.t.proc[q] == s.t.proc[q])
            && (forall d :: 0 <= d < |s.cpus| && d != c ==> s'.cpus[d] == s.cpus[d])
            && forall l :: 0 <= l < LEVELS ==> Entries(s'.t, l) == Entries(s.t, l)
  {
    hide Entries, RingOk;
    BusyBooted(s, c);
    var p, s1 := s.cpus[c].p, Do(s, Exit(c));
    var s' := Do(s1, Reap(p));
    forall l | 0 <= l < LEVELS ensures Entries(s'.t, l) == Entries(s.t, l) { SameRings(s.t, s'.t, l); }
  }

  /** A fork that fails gives its slot back. */
  lemma AllocThenAbandon(s: Sys, p: nat)
    requires Inv(s) && Enabled(s, Alloc(p))
    ensures Enabled(Do(s, Alloc(p)), Abandon(p))
    ensures var s' := Do(Do(s, Alloc(p)), Abandon(p));
            && s'.t.proc[p].state == UNUSED && s'.cpus == s.cpus && Enabled(s', Alloc(p))
            && (forall q :: 0 <= q < NPROC && q != p ==> s'.t.proc[q] == s.t.proc[q])
            && forall l :: 0 <= l < LEVELS ==> Entries(s'.t, l) == Entries(s.t, l)
  {
    hide Entries, RingOk;
    var s' := Do(Do(s, Alloc(p)), Abandon(p));
    forall l | 0 <= l < LEVELS ensures Entries(s'.t, l) == Entries(s.t, l) { SameRings(s.t, s'.t, l); }
  }

  // ---- what the history of a run tells ----

  /** The fields that no enqueueing, waking or ageing touches. */
  predicate SameAccount(q: Proc, q': Proc)
  {
    q'.pid == q.pid && q'.chan == q.chan && q'.killed == q.killed && q'.lastExecuted == q.lastExecuted
    && q'.numRun == q.numRun
  }

  lemma QuietAccounts(s: Sys, a: Action, p: nat)
    requires Enabled(s, a) && p < NPROC && (a.Wakeup? || a.Age? || a.Boot? || a.Start? || a.Reset? || a.Clock?)
    ensures |Do(s, a).t.proc| == NPROC && SameAccount(s.t.proc[p], Do(s, a).t.proc[p])
  {
    hide Entries, WakeFrom, AgeFrom;
    match a
    case Wakeup(chan) => WakeProcs(s.t, chan, 0);
    case Age => PassProcs(s.t, 1, s.ticks);
    case _ =>
  }

  /** a switches to process p. */
  ghost predicate SwitchesTo(s: Sys, a: Action, p: nat)
    requires Enabled(s, a)
  {
    || (a.Dispatch? && Entries(s.t, FirstLevel(s.t, 0))[0] == p)
    || (a.Yield? && s.cpus[a.c].p == p && !LastTick(s, a.c))
  }

  /** How often the scheduler has switched to p since it was allocated. */
  ghost function Switches(s: Sys, acts: seq<Action>, p: nat): (n: int)
    requires Run(s, acts) && p < |s.t.proc|
    decreases |acts|
  {
    if acts == [] then s.t.proc[p].numRun else
      var before, a := acts[..|acts| - 1], acts[|acts| - 1];
      if a == Alloc(p) then 0
      else Switches(s, before, p) + if SwitchesTo(After(s, before), a, p) then 1 else 0
  }

  /** The tick at which p was last running at a clock interrupt, 0 from its allocation on. */
  ghost function LastCharge(s: Sys, acts: seq<Action>, p: nat): (t: int)
    requires Run(s, acts) && p < |s.t.proc|
    decreases |acts|
  {
    if acts == [] then s.t.proc[p].lastExecuted else
      var before, a := acts[..|acts| - 1], acts[|acts| - 1];
      if a == Alloc(p) then 0
      else if a.Charge? && After(s, before).cpus[a.c].p == p then After(s, before).ticks
      else LastCharge(s, before, p)
  }

  /** Somebody has killed p since it was last reaped. */
  ghost predicate Doomed(s: Sys, acts: seq<Action>, p: nat)
    requires Run(s, acts) && p < |s.t.proc|
    decreases |acts|
  {
    if acts == [] then s.t.proc[p].killed else
      var before, a := acts[..|acts| - 1], acts[|acts| - 1];
      if a == Reap(p) then false
      else Doomed(s, before, p) || (a.KillPid? && Target(After(s, before).t, a.pid, p))
  }

  /** What p last slept on. */
  ghost function SleptOn(s: Sys, acts: seq<Action>, p: nat): (chan: nat)
    requires Run(s, acts) && p < |s.t.proc|
    decreases |acts|
  {
    if acts == [] then s.t.proc[p].chan else
      var before, a := acts[..|acts| - 1], acts[|acts| - 1];
      if a.Sleep? && After(s, before).cpus[a.c].p == p then a.chan else SleptOn(s, before, p)
  }

  lemma StepAccounts(s: Sys, a: Action, p: nat)
    requires Enabled(s, a) && p < NPROC
    ensures |Do(s, a).t.proc| == NPROC
    ensures var q, q' := s.t.proc[p], Do(s, a).t.proc[p];
            && q'.numRun == (if a == Alloc(p) then 0 else q.numRun + if SwitchesTo(s, a, p) then 1 else 0)
            && q'.lastExecuted == (if a == Alloc(p) then 0
                                   else if a.Charge? && s.cpus[a.c].p == p then s.ticks else q.lastExecuted)
            && q'.killed == (a != Reap(p) && (q.killed || (a.KillPid? && Target(s.t, a.pid, p))))
            && q'.chan == (if a.Sleep? && s.cpus[a.c].p == p then a.chan else q.chan)
  {
    hide Entries, WakeFrom, AgeFrom, Kill, Target;
    match a
    case KillPid(c, pid) => KillProcs(s.t, pid);
    case Wakeup(_) => QuietAccounts(s, a, p);
    case Age => QuietAccounts(s, a, p);
    case _ =>
  }

  /** Every run: each process's accounts are what its history says. */
  lemma {:induction false} HistoryTells(s: Sys, acts: seq<Action>, p: nat)
    requires Run(s, acts) && |s.t.proc| == NPROC && p < NPROC
    ensures |After(s, acts).t.proc| == NPROC
    ensures var q := After(s, acts).t.proc[p];
            && q.numRun == Switches(s, acts, p) && q.lastExecuted == LastCharge(s, acts, p)
            && q.killed == Doomed(s, acts, p) && q.chan == SleptOn(s, acts, p)
  {
    if acts != [] {
      hide Do, Enabled, SwitchesTo, Target;
      var n := |acts| - 1;
      HistoryTells(s, acts[..n], p);
      StepAccounts(After(s, acts[..n]), acts[n], p);
    }
  }

  // ---- pids ----

  /** The processes in use have different pids, all of them given out already. */
  predicate PidsOk(s: Sys)
  {
    && s.nextpid >= 1
    && (forall p :: 0 <= p < |s.t.proc| && s.t.proc[p].state != UNUSED ==> 0 < s.t.proc[p].pid < s.nextpid)
    && forall p, q :: 0 <= p < q < |s.t.proc| && s.t.proc[p].state != UNUSED && s.t.proc[q].state != UNUSED ==>
         s.t.proc[p].pid != s.t.proc[q].pid
  }

  /** A process keeps its pid from its allocation until it is reaped. */
  lemma StepPid(s: Sys, a: Action, p: nat)
    requires Enabled(s, a) && p < NPROC
    ensures |Do(s, a).t.proc| == NPROC
    ensures Do(s, a).t.proc[p].pid == if a == Alloc(p) then s.nextpid else if a == Reap(p) then 0 else s.t.proc[p].pid
    ensures Do(s, a).nextpid == s.nextpid + if a.Alloc? then 1 else 0
  {
    hide Entries, WakeFrom, AgeFrom, Kill;
    match a
    case KillPid(c, pid) => KillProcs(s.t, pid);
    case Wakeup(_) => QuietAccounts(s, a, p);
    case Age => QuietAccounts(s, a, p);
    case _ =>
  }

  lemma StepPids(s: Sys, a: Action)
    requires Inv(s) && PidsOk(s) && Enabled(s, a)
    ensures PidsOk(Do(s, a))
  {
    hide Inv, Do, Enabled;
    var s' := Do(s, a);
    assert |s.t.proc| == NPROC by { TableSize(s); }
    StepPid(s, a, 0);
    forall p: nat | p < NPROC && s'.t.proc[p].state != UNUSED
      ensures s'.t.proc[p].pid == (if a == Alloc(p) then s.nextpid else s.t.proc[p].pid)
      ensures a == Alloc(p) || s.t.proc[p].state != UNUSED
    {
      StepPid(s, a, p);
      StateEdges(s, a, p);
      UsedStays(s, a, p);
    }
  }

  lemma TableSize(s: Sys)
    requires Inv(s)
    ensures |s.t.proc| == NPROC
  {
    hide Entries, RingOk;
  }

  lemma UsedStays(s: Sys, a: Action, p: nat)
    requires Inv(s) && Enabled(s, a) && p < NPROC && |Do(s, a).t.proc| == NPROC && Do(s, a).t.proc[p].state != UNUSED
    ensures a != Reap(p) && (a == Alloc(p) || s.t.proc[p].state != UNUSED)
  {
    hide Entries, WakeFrom, AgeFrom, Kill;
    match a
    case KillPid(c, pid) => KillProcs(s.t, pid);
    case Wakeup(chan) => WakeProcs(s.t, chan, 0);
    case Age => PassProcs(s.t, 1, s.ticks);
    case Dispatch(c) => assert RingOk(s.t, FirstLevel(s.t, 0), {});
    case _ =>
  }

  /** In every run no two processes have the same pid, so kill means one process. */
  lemma {:induction false} UniquePids(s: Sys, acts: seq<Action>)
    requires Initial(s) && SafeRun(s, acts)
    ensures PidsOk(After(s, acts))
  {
    if acts != [] {
      hide Do, Enabled, Safe, Initial, Inv, PidsOk;
      var n := |acts| - 1;
      UniquePids(s, acts[..n]);
      RunInvariant(s, acts[..n]);
      StepPids(After(s, acts[..n]), acts[n]);
    }
  }
}
