/** Runs of the MLFQ scheduler, from the kernel as it comes up, in which it loses processes. */
module MlfqFailures {
  import opened Rings
  import opened Mlfq
  import opened Ageing
  import opened MlfqRuns
  import opened MlfqSlices

  /** r is the state after the safe run acts from s. */
  ghost predicate Reaches(s: Sys, acts: seq<Action>, r: Sys)
  {
    SafeRun(s, acts) && After(s, acts) == r && Inv(r)
  }

  lemma Extend(s: Sys, acts: seq<Action>, r: Sys, a: Action) returns (acts': seq<Action>, r': Sys)
    requires Reaches(s, acts, r) && Enabled(r, a) && Safe(r, a)
    ensures r' == Do(r, a) && acts' == acts + [a] && Reaches(s, acts', r')
  {
    hide Inv, Enabled, Safe, Do;
    acts', r' := acts + [a], Do(r, a);
    ExtendRun(s, acts, a);
    StepExactly(r, a);
  }

  lemma ReachesStart(s: Sys)
    requires Initial(s)
    ensures Reaches(s, [], s) && forall l :: 0 <= l < LEVELS ==> Entries(s.t, l) == []
  {
    InitialInv(s);
  }

  /** userinit's process is queued, and nothing else has happened. */
  lemma Booted(s: Sys, acts: seq<Action>, r: Sys) returns (acts': seq<Action>, r': Sys)
    requires Reaches(s, acts, r) && !r.booted && forall q :: 0 <= q < NPROC ==> r.t.proc[q].state == UNUSED
    ensures Reaches(s, acts', r') && r'.booted && r'.flag == r.flag && r'.cpus == r.cpus && r'.ticks == r.ticks
    ensures r'.t.proc[0].state == RUNNABLE && r'.t.proc[0].queue == 0 && r'.t.proc[0].lastExecuted == 0
    ensures forall q :: 0 <= q < NPROC && q != 0 ==> r'.t.proc[q] == r.t.proc[q]
    ensures forall l :: 0 <= l < LEVELS ==> Entries(r'.t, l) == if l == 0 then Entries(r.t, l) + [0]
            else Entries(r.t, l)
  {
    hide Entries, RingOk, Enqueue, SafeRun, After;
    var r1;
    acts', r1 := Extend(s, acts, r, Alloc(0));
    acts', r' := Extend(s, acts', r1, Boot(0));
    EnqueueProc(SetState(r1.t, 0, RUNNABLE), 0, 0);
    forall l | 0 <= l < LEVELS ensures Entries(r'.t, l) == if l == 0 then Entries(r.t, l) + [0] else Entries(r.t, l) {
      StepEntries(r, Alloc(0), l);
      StepEntries(r1, Boot(0), l);
    }
  }

  // ---- the reset of the rings ----

  lemma {:induction false} NoLevel(t: Table, l: nat)
    requires WfTable(t) && l <= LEVELS && forall m :: 0 <= m < LEVELS ==> t.head[m] == t.tail[m] == 0
    ensures FirstLevel(t, l) == LEVELS
    decreases LEVELS - l
  {
    if l < LEVELS {
      assert Entries(t, l) == [];
      NoLevel(t, l + 1);
    }
  }

  /** With one CPU userinit comes before scheduler(), whose reset then loses the first process for good. */
  lemma BootOrder(s: Sys) returns (acts: seq<Action>)
    requires Initial(s)
    ensures SafeRun(s, acts) && Enabled(After(s, acts), Reset)
    ensures var r := Do(After(s, acts), Reset);
            !Inv(r) && WfTable(r.t) && r.t.proc[0].state == RUNNABLE && FirstLevel(r.t, 0) == LEVELS
  {
    hide Entries, RingOk, SafeRun, After;
    ReachesStart(s);
    var r;
    acts, r := Booted(s, [], s);
    ResetStep(r);
    NoLevel(ResetRings(r.t), 0);
  }

  // ---- a ring that overflows ----

  /** Process 0 runs on CPU 0 and has forked processes 1 to n-1, which wait at level 0. */
  ghost predicate Forked(r: Sys, n: nat)
  {
    && Inv(r) && Runs(r, 0) && r.cpus[0].p == 0 && r.t.proc[0].queue == 0
    && (forall p :: 1 <= p < n && p < NPROC ==> r.t.proc[p].state == RUNNABLE && r.t.proc[p].queue == 0)
    && forall p :: n <= p < NPROC ==> r.t.proc[p].state == UNUSED
  }

  lemma FirstRuns(s: Sys) returns (acts: seq<Action>, r: Sys)
    requires Initial(s) && |s.cpus| >= 1
    ensures Reaches(s, acts, r) && Forked(r, 1)
  {
    hide Entries, RingOk, SafeRun, After, Enqueue;
    ReachesStart(s);
    acts, r := Extend(s, [], s, Reset);
    ResetEmpty(s.t);
    acts, r := Booted(s, acts, r);
    var r0 := r;
    assert FirstLevel(r0.t, 0) == 0;
    acts, r := Extend(s, acts, r0, Dispatch(0));
    DequeueProc(r0.t, 0);
  }

  lemma ResetEmpty(t: Table)
    requires WfTable(t)
    ensures WfTable(ResetRings(t)) && forall l :: 0 <= l < LEVELS ==> Entries(ResetRings(t), l) == []
  {}

  lemma {:induction false} ForkRun(s: Sys, n: nat) returns (acts: seq<Action>, r: Sys)
    requires Initial(s) && |s.cpus| >= 1 && 1 <= n <= NPROC
    ensures Reaches(s, acts, r) && Forked(r, n)
    decreases n
  {
    hide Entries, RingOk, SafeRun, After, Enqueue, Consistent;
    if n == 1 {
      acts, r := FirstRuns(s);
    } else {
      acts, r := ForkRun(s, n - 1);
      var p := n - 1;
      InvLevels(r);
      acts, r := Extend(s, acts, r, Alloc(p));
      var r1 := r;
      InvLevels(r1);
      acts, r := Extend(s, acts, r1, Start(0, p));
      EnqueueProc(SetState(r1.t, p, RUNNABLE), 0, p);
    }
  }

  lemma InvLevels(s: Sys)
    requires Inv(s)
    ensures WfLevels(s.t)
  {}

  lemma {:induction false} WakeNobody(t: Table, chan: nat, i: nat)
    requires WfLevels(t) && i <= NPROC && forall p :: i <= p < NPROC ==> !SleepsOn(t.proc[p], chan)
    ensures WakeFrom(t, chan, i) == t
    decreases NPROC - i
  {
    if i < NPROC { WakeNobody(t, chan, i + 1); }
  }

  /**
    Process 0 forks until the table is full and sleeps; an interrupt then wakes it. Its enqueue is the NPROC-th
    at level 0: the ring looks empty and every process is lost.
   */
  lemma RingOverflows(s: Sys, chan: nat) returns (acts: seq<Action>)
    requires Initial(s) && |s.cpus| >= 1
    ensures SafeRun(s, acts) && Enabled(After(s, acts), Wakeup(chan))
    ensures var r := Do(After(s, acts), Wakeup(chan));
            && !Inv(r) && WfTable(r.t) && Entries(r.t, 0) == []
            && forall p :: 0 <= p < NPROC ==> r.t.proc[p].state == RUNNABLE && r.t.proc[p].queue == 0
  {
    hide Entries, RingOk, SafeRun, After, Enqueue, WakeFrom;
    var r;
    acts, r := ForkRun(s, NPROC);
    BusyBooted(r, 0);
    acts, r := Extend(s, acts, r, Sleep(0, chan));
    assert WakeFills(r.t, chan, 0);
    StepExactly(r, Wakeup(chan));
    WakeProcs(r.t, chan, 0);
    WakesOnlyFirst(r.t, chan);
    JoinRing(r.t, 0, 0);
    var t1 := SetState(r.t, 0, RUNNABLE);
    SameRings(r.t, t1, 0);
    EnqueueEntries(t1, 0, 0);
    assert !Consistent(Wake(r.t, 0), {}) by { WakeupFits(r.t, chan); }
    assert |Entries(r.t, 0)| >= NPROC - 1;
  }

  lemma WakesOnlyFirst(t: Table, chan: nat)
    requires WfLevels(t) && SleepsOn(t.proc[0], chan) && forall p :: 1 <= p < NPROC ==> t.proc[p].state == RUNNABLE
    ensures WakeFrom(t, chan, 0) == Wake(t, 0)
  {
    hide Enqueue;
    EnqueueProc(SetState(t, 0, RUNNABLE), t.proc[0].queue, 0);
    WakeNobody(Wake(t, 0), chan, 1);
  }

  // ---- an ageing pass that loses a process ----

  datatype Brief = Brief(state: ProcState, level: nat, last: int, chan: nat)

  function BriefOf(q: Proc): (b: Brief)
  {
    Brief(q.state, q.queue, q.lastExecuted, if q.state == SLEEPING then q.chan else 0)
  }

  /** CPU 0, processes 0 to 2, the rings of levels 0 and 1, and the clock. */
  datatype Scene = Scene(cpu: Cpu, p: seq<Brief>, r0: seq<nat>, r1: seq<nat>, ticks: int)

  /** The state is as in the scene, and no other process is in use. */
  ghost predicate Looks(r: Sys, sc: Scene)
  {
    && Inv(r) && r.flag && r.booted && |r.cpus| >= 1 && r.cpus[0] == sc.cpu && r.ticks == sc.ticks && |sc.p| == 3
    && (forall i :: 0 <= i < 3 ==> BriefOf(r.t.proc[i]) == sc.p[i])
    && (forall i :: 3 <= i < NPROC ==> r.t.proc[i].state == UNUSED)
    && forall l :: 0 <= l < LEVELS ==> Entries(r.t, l) == if l == 0 then sc.r0 else if l == 1 then sc.r1 else []
  }

  predicate Is(sc: Scene, cpu: Cpu, p: seq<Brief>, r0: seq<nat>, r1: seq<nat>, ticks: int)
  {
    sc.cpu == cpu && sc.p == p && sc.r0 == r0 && sc.r1 == r1 && sc.ticks == ticks
  }

  lemma RingsAfter(r: Sys, a: Action)
    requires Inv(r) && Enabled(r, a) && Safe(r, a) && !a.Age? && !a.Reset? && !a.KillPid?
    ensures Inv(Do(r, a)) && forall l :: 0 <= l < LEVELS ==> Entries(Do(r, a).t, l) == RingAfter(r, a, l)
  {
    hide Inv, Do, Enabled, Safe, RingAfter;
    StepExactly(r, a);
    InvLevels(Do(r, a));
    forall l | 0 <= l < LEVELS ensures Entries(Do(r, a).t, l) == RingAfter(r, a, l) { StepEntries(r, a, l); }
  }

  lemma SceneClock(s: Sys, acts: seq<Action>, r: Sys, sc: Scene, now: int, to: Scene)
    returns (acts': seq<Action>, r': Sys)
    requires Reaches(s, acts, r) && Looks(r, sc) && now >= sc.ticks
    requires Is(to, sc.cpu, sc.p, sc.r0, sc.r1, now)
    ensures Reaches(s, acts', r') && Looks(r', to)
  {
    hide Entries, RingOk, SafeRun, After;
    acts', r' := Extend(s, acts, r, Clock(now));
  }

  /** A tick on CPU 0 charges its process. */
  lemma SceneCharge(s: Sys, acts: seq<Action>, r: Sys, sc: Scene, to: Scene) returns (acts': seq<Action>, r': Sys)
    requires Reaches(s, acts, r) && Looks(r, sc) && sc.cpu.Busy? && sc.cpu.p < 3
    requires Is(to, sc.cpu, sc.p[sc.cpu.p := sc.p[sc.cpu.p].(last := sc.ticks)], sc.r0, sc.r1, sc.ticks)
    ensures Reaches(s, acts', r') && Looks(r', to)
  {
    hide Entries, RingOk, SafeRun, After;
    acts', r' := Extend(s, acts, r, Charge(0));
    RingsAfter(r, Charge(0));
  }

  /** The process on CPU 0 forks process i. */
  lemma SceneFork(s: Sys, acts: seq<Action>, r: Sys, sc: Scene, i: nat, to: Scene) returns (acts': seq<Action>, r': Sys)
    requires Reaches(s, acts, r) && Looks(r, sc) && sc.cpu.Busy? && sc.cpu.p < i < 3 && sc.p[i].state == UNUSED
    requires forall k :: 0 <= k < i ==> sc.p[k].state != UNUSED
    requires Is(to, sc.cpu, sc.p[i := Brief(RUNNABLE, 0, 0, 0)], sc.r0 + [i], sc.r1, sc.ticks)
    ensures Reaches(s, acts', r') && Looks(r', to)
  {
    hide Entries, RingOk, SafeRun, After, Enqueue;
    var r1;
    forall k | 0 <= k < i ensures r.t.proc[k].state != UNUSED { assert BriefOf(r.t.proc[k]) == sc.p[k]; }
    acts', r1 := Extend(s, acts, r, Alloc(i));
    RingsAfter(r, Alloc(i));
    acts', r' := Extend(s, acts', r1, Start(0, i));
    RingsAfter(r1, Start(0, i));
    EnqueueProc(SetState(r1.t, i, RUNNABLE), 0, i);
  }

  lemma SceneSleep(s: Sys, acts: seq<Action>, r: Sys, sc: Scene, chan: nat, to: Scene)
    returns (acts': seq<Action>, r': Sys)
    requires Reaches(s, acts, r) && Looks(r, sc) && sc.cpu.Busy? && sc.cpu.p < 3
    requires Is(to, Idle, sc.p[sc.cpu.p := sc.p[sc.cpu.p].(state := SLEEPING, chan := chan)], sc.r0, sc.r1, sc.ticks)
    ensures Reaches(s, acts', r') && Looks(r', to)
  {
    hide Entries, RingOk, SafeRun, After;
    acts', r' := Extend(s, acts, r, Sleep(0, chan));
    RingsAfter(r, Sleep(0, chan));
  }

  lemma SceneLevel(r: Sys, sc: Scene)
    requires Looks(r, sc) && (sc.r0 != [] || sc.r1 != [])
    ensures FirstLevel(r.t, 0) == if sc.r0 != [] then 0 else 1
  {
    hide Entries, RingOk;
    assert FirstLevel(r.t, 1) == 1 || sc.r1 == [];
  }

  /** The head h of the first nonempty ring, at level l, starts on CPU 0. */
  lemma SceneDispatch(s: Sys, acts: seq<Action>, r: Sys, sc: Scene, h: nat, l: nat, to: Scene)
    returns (acts': seq<Action>, r': Sys)
    requires Reaches(s, acts, r) && Looks(r, sc) && sc.cpu == Idle && h < 3
    requires if l == 0 then sc.r0 != [] && sc.r0[0] == h else l == 1 && sc.r0 == [] && sc.r1 != [] && sc.r1[0] == h
    requires Is(to, Busy(h, 0), sc.p[h := sc.p[h].(state := RUNNING, chan := 0)],
                if l == 0 then sc.r0[1..] else sc.r0, if l == 1 then sc.r1[1..] else sc.r1, sc.ticks)
    ensures Reaches(s, acts', r') && Looks(r', to)
  {
    hide Entries, RingOk, SafeRun, After, FirstLevel;
    SceneLevel(r, sc);
    acts', r' := Extend(s, acts, r, Dispatch(0));
    RingsAfter(r, Dispatch(0));
    DequeueProc(r.t, l);
  }

  /** Process i uses up its slice of one tick at level 0. */
  lemma SceneYield(s: Sys, acts: seq<Action>, r: Sys, sc: Scene, i: nat, to: Scene)
    returns (acts': seq<Action>, r': Sys)
    requires Reaches(s, acts, r) && Looks(r, sc) && i < 3 && sc.cpu == Busy(i, 0) && sc.p[i].level == 0 && |sc.r1| < 3
    requires Is(to, Idle, sc.p[i := sc.p[i].(state := RUNNABLE, level := 1, chan := 0)], sc.r0, sc.r1 + [i], sc.ticks)
    ensures Reaches(s, acts', r') && Looks(r', to)
    ensures acts' == acts + [Yield(0)]
  {
    hide Entries, RingOk, SafeRun, After, Enqueue;
    assert BriefOf(r.t.proc[i]) == sc.p[i];
    assert LastTick(r, 0);
    acts', r' := Extend(s, acts, r, Yield(0));
    RingsAfter(r, Yield(0));
    EnqueueProc(SetState(r.t, i, RUNNABLE), 1, i);
  }

  lemma {:induction false} WokenNone(t: Table, chan: nat, l: nat, i: nat)
    requires |t.proc| == NPROC && i <= NPROC && forall p :: i <= p < NPROC ==> !SleepsOn(t.proc[p], chan)
    ensures Woken(t, chan, l, i) == []
    decreases NPROC - i
  {
    if i < NPROC { WokenNone(t, chan, l, i + 1); }
  }

  lemma {:induction false} WokenOnly(t: Table, chan: nat, l: nat, i: nat, q: nat)
    requires |t.proc| == NPROC && i <= q < NPROC && SleepsOn(t.proc[q], chan)
    requires forall p :: i <= p < NPROC && p != q ==> !SleepsOn(t.proc[p], chan)
    ensures Woken(t, chan, l, i) == if t.proc[q].queue == l then [q] else []
    decreases NPROC - i
  {
    if i < q { WokenOnly(t, chan, l, i + 1, q); } else { WokenNone(t, chan, l, i + 1); }
  }

  /** Process i is the one that sleeps on chan, and is woken to the tail of its level. */
  lemma SceneWake(s: Sys, acts: seq<Action>, r: Sys, sc: Scene, chan: nat, i: nat, to: Scene)
    returns (acts': seq<Action>, r': Sys)
    requires Reaches(s, acts, r) && Looks(r, sc) && i < 3 && sc.p[i].state == SLEEPING && sc.p[i].chan == chan
    requires sc.p[i].level < 2 && forall k :: 0 <= k < 3 && k != i ==>
             !(sc.p[k].state == SLEEPING && sc.p[k].chan == chan)
    requires Is(to, sc.cpu, sc.p[i := sc.p[i].(state := RUNNABLE, chan := 0)],
                if sc.p[i].level == 0 then sc.r0 + [i] else sc.r0,
                if sc.p[i].level == 1 then sc.r1 + [i] else sc.r1, sc.ticks)
    ensures Reaches(s, acts', r') && Looks(r', to)
  {
    hide Entries, RingOk, SafeRun, After, WakeFrom, Woken;
    assert forall l :: 0 <= l < LEVELS ==> !WakeFills(r.t, chan, l) by { assert r.t.proc[3].state == UNUSED; }
    acts', r' := Extend(s, acts, r, Wakeup(chan));
    RingsAfter(r, Wakeup(chan));
    WakeProcs(r.t, chan, 0);
    forall k | 0 <= k < NPROC ensures SleepsOn(r.t.proc[k], chan) <==> k == i {
      if k < 3 { assert BriefOf(r.t.proc[k]) == sc.p[k]; }
    }
    forall l | 0 <= l < LEVELS ensures Woken(r.t, chan, l, 0) == if l == sc.p[i].level then [i] else [] {
      WokenOnly(r.t, chan, l, 0, i);
    }
  }

  /** An ageing pass over empty rings does nothing. */
  lemma SceneAgeIdle(s: Sys, acts: seq<Action>, r: Sys, sc: Scene) returns (acts': seq<Action>, r': Sys)
    requires Reaches(s, acts, r) && Looks(r, sc) && sc.r0 == sc.r1 == []
    ensures Reaches(s, acts', r') && Looks(r', sc)
  {
    hide Entries, RingOk, SafeRun, After, AgeFrom;
    ConsistentLevels(r.t);
    NothingAged(r.t, r.ticks);
    IdleScene(r, sc);
    IdleGivesRoom(r.t, r.ticks);
    AgeingExactly(r.t, r.ticks);
    acts', r' := Extend(s, acts, r, Age);
    forall l | 0 <= l < LEVELS ensures Entries(r'.t, l) == [] { PassedRing(r.t, r'.t, l, r.ticks); }
  }

  /** Ring l after an ageing pass. */
  lemma PassedRing(t: Table, t': Table, l: nat, ticks: int)
    requires WfTable(t) && WfTable(t') && l < LEVELS && PassedFrom(t, t', 1, ticks)
    ensures var gone := if l == 0 then 0 else |AgedAt(t, l, ticks)|;
            gone <= |Entries(t, l)| && Entries(t', l) == Entries(t, l)[gone..] + AgedAt(t, l + 1, ticks)
  {
    hide Entries, AgedAt;
  }

  lemma IdleScene(r: Sys, sc: Scene)
    requires Looks(r, sc)
    ensures SomeIdle(r.t.proc)
  {
    assert r.t.proc[3].state == UNUSED;
  }

  lemma NothingAged(t: Table, ticks: int)
    requires WfTable(t) && forall l :: 0 <= l < LEVELS ==> Entries(t, l) == []
    ensures forall m: nat :: AgedAt(t, m, ticks) == []
  {
    hide Entries;
  }

  lemma SceneStart(s: Sys) returns (acts: seq<Action>, r: Sys)
    requires Initial(s) && |s.cpus| >= 1
    ensures Reaches(s, acts, r)
    ensures var none := [BriefOf(s.t.proc[1]), BriefOf(s.t.proc[2])];
            Looks(r, Scene(Idle, [Brief(RUNNABLE, 0, 0, 0)] + none, [0], [], 0))
                && none[0].state == none[1].state == UNUSED
  {
    hide Entries, RingOk, SafeRun, After;
    ReachesStart(s);
    var r1;
    acts, r1 := Extend(s, [], s, Reset);
    ResetEmpty(s.t);
    acts, r := Booted(s, acts, r1);
  }

  /** init forks two children and waits; the first sinks to level 1 at tick 1, and both go to sleep. */
  lemma Morning(s: Sys) returns (acts: seq<Action>, r: Sys, sc: Scene)
    requires Initial(s) && |s.cpus| >= 1
    ensures Reaches(s, acts, r) && Looks(r, sc)
    ensures sc == Scene(Idle, [Brief(SLEEPING, 0, 0, 90), Brief(SLEEPING, 1, 1, 91), Brief(SLEEPING, 0, 0, 92)],
                        [], [], 1)
  {
    hide Looks, Reaches;
    var to;
    acts, r := SceneStart(s);
    sc := Scene(Idle, [Brief(RUNNABLE, 0, 0, 0)] + [BriefOf(s.t.proc[1]), BriefOf(s.t.proc[2])], [0], [], 0);
    to := Scene(Busy(0, 0), sc.p[0 := Brief(RUNNING, 0, 0, 0)], [], [], 0);
    acts, r := SceneDispatch(s, acts, r, sc, 0, 0, to);
    sc := to;
    to := sc.(p := sc.p[1 := Brief(RUNNABLE, 0, 0, 0)], r0 := [1]);
    acts, r := SceneFork(s, acts, r, sc, 1, to);
    sc := to;
    to := Scene(Busy(0, 0), [Brief(RUNNING, 0, 0, 0), Brief(RUNNABLE, 0, 0, 0), Brief(RUNNABLE, 0, 0, 0)],
                [1, 2], [], 0);
    acts, r := SceneFork(s, acts, r, sc, 2, to);
    sc := to;
    to := sc.(cpu := Idle, p := sc.p[0 := Brief(SLEEPING, 0, 0, 90)]);
    acts, r := SceneSleep(s, acts, r, sc, 90, to);
    sc := to;
    to := sc.(cpu := Busy(1, 0), p := sc.p[1 := Brief(RUNNING, 0, 0, 0)], r0 := [2]);
    acts, r := SceneDispatch(s, acts, r, sc, 1, 0, to);
    sc := to;
    to := sc.(ticks := 1);
    acts, r := SceneClock(s, acts, r, sc, 1, to);
    sc := to;
    to := sc.(p := sc.p[1 := Brief(RUNNING, 0, 1, 0)]);
    acts, r := SceneCharge(s, acts, r, sc, to);
    sc := to;
    to := sc.(cpu := Idle, p := sc.p[1 := Brief(RUNNABLE, 1, 1, 0)], r1 := [1]);
    acts, r := SceneYield(s, acts, r, sc, 1, to);
    sc := to;
    to := sc.(cpu := Busy(2, 0), p := sc.p[2 := Brief(RUNNING, 0, 0, 0)], r0 := []);
    acts, r := SceneDispatch(s, acts, r, sc, 2, 0, to);
    sc := to;
    to := sc.(cpu := Idle, p := sc.p[2 := Brief(SLEEPING, 0, 0, 92)]);
    acts, r := SceneSleep(s, acts, r, sc, 92, to);
    sc := to;
    to := sc.(cpu := Busy(1, 0), p := sc.p[1 := Brief(RUNNING, 1, 1, 0)], r1 := []);
    acts, r := SceneDispatch(s, acts, r, sc, 1, 1, to);
    sc := to;
    to := sc.(cpu := Idle, p := sc.p[1 := Brief(SLEEPING, 1, 1, 91)]);
    acts, r := SceneSleep(s, acts, r, sc, 91, to);
    sc := to;
  }

  /** The second child runs up to tick 2001 and sinks; init runs, wakes the first child behind it, and sinks too. */
  lemma Evening(s: Sys) returns (acts: seq<Action>, r: Sys, sc: Scene)
    requires Initial(s) && |s.cpus| >= 1
    ensures acts != [] && acts[|acts| - 1] == Yield(0) && Reaches(s, acts, r) && Looks(r, sc)
    ensures sc == Scene(Idle, [Brief(RUNNABLE, 1, 2002, 0), Brief(RUNNABLE, 1, 1, 0), Brief(RUNNABLE, 1, 2001, 0)],
                        [], [2, 1, 0], 2002)
  {
    hide Looks, Reaches;
    var to;
    acts, r, sc := Morning(s);
    to := sc.(ticks := 1001);
    acts, r := SceneClock(s, acts, r, sc, 1001, to);
    sc := to;
    acts, r := SceneAgeIdle(s, acts, r, sc);
    to := sc.(ticks := 2000);
    acts, r := SceneClock(s, acts, r, sc, 2000, to);
    sc := to;
    to := sc.(p := sc.p[2 := Brief(RUNNABLE, 0, 0, 0)], r0 := [2]);
    acts, r := SceneWake(s, acts, r, sc, 92, 2, to);
    sc := to;
    to := sc.(cpu := Busy(2, 0), p := sc.p[2 := Brief(RUNNING, 0, 0, 0)], r0 := []);
    acts, r := SceneDispatch(s, acts, r, sc, 2, 0, to);
    sc := to;
    to := sc.(p := sc.p[0 := Brief(RUNNABLE, 0, 0, 0)], r0 := [0]);
    acts, r := SceneWake(s, acts, r, sc, 90, 0, to);
    sc := to;
    to := sc.(ticks := 2001);
    acts, r := SceneClock(s, acts, r, sc, 2001, to);
    sc := to;
    to := sc.(p := sc.p[2 := Brief(RUNNING, 0, 2001, 0)]);
    acts, r := SceneCharge(s, acts, r, sc, to);
    sc := to;
    to := sc.(cpu := Idle, p := sc.p[2 := Brief(RUNNABLE, 1, 2001, 0)], r1 := [2]);
    acts, r := SceneYield(s, acts, r, sc, 2, to);
    sc := to;
    to := sc.(cpu := Busy(0, 0), p := sc.p[0 := Brief(RUNNING, 0, 0, 0)], r0 := []);
    acts, r := SceneDispatch(s, acts, r, sc, 0, 0, to);
    sc := to;
    to := sc.(p := sc.p[1 := Brief(RUNNABLE, 1, 1, 0)], r1 := [2, 1]);
    acts, r := SceneWake(s, acts, r, sc, 91, 1, to);
    sc := to;
    to := sc.(ticks := 2002);
    acts, r := SceneClock(s, acts, r, sc, 2002, to);
    sc := to;
    to := sc.(p := sc.p[0 := Brief(RUNNING, 0, 2002, 0)]);
    acts, r := SceneCharge(s, acts, r, sc, to);
    sc := to;
    to := sc.(cpu := Idle, p := sc.p[0 := Brief(RUNNABLE, 1, 2002, 0)], r1 := [2, 1, 0]);
    acts, r := SceneYield(s, acts, r, sc, 0, to);
    sc := to;
  }

  lemma OnlyMiddleAged(t: Table, ticks: int)
    requires WfTable(t) && Entries(t, 1) == [2, 1, 0]
    requires !IsAged(t.proc[2], ticks) && IsAged(t.proc[1], ticks) && !IsAged(t.proc[0], ticks)
    ensures AgedAt(t, 1, ticks) == [1] && !([1] <= [2, 1, 0])
  {
    hide Entries;
    var es := [2, 1, 0];
    assert es[1..] == [1, 0] && [1, 0][1..] == [0] && [0][1..] == [];
    assert Aged(t.proc, [], ticks) == [];
    assert Aged(t.proc, [0], ticks) == [] + Aged(t.proc, [0][1..], ticks);
    assert Aged(t.proc, [1, 0], ticks) == [1] + Aged(t.proc, [1, 0][1..], ticks);
    assert Aged(t.proc, es, ticks) == [] + Aged(t.proc, es[1..], ticks);
    assert [1][0] != es[0];
  }

  /**
    The last ageing pass was at tick 1001, so one is due at tick 2002, right after init's slice. At that moment ring 1
    is the second child, the first child, init, and only the first child is aged: the pass pops the second child for
    it, which is then RUNNABLE and in no ring, while the first child is in two.
   */
  lemma AgeingCanLose(s: Sys) returns (acts: seq<Action>)
    requires Initial(s) && |s.cpus| >= 1
    ensures SafeRun(s, acts) && acts != [] && acts[|acts| - 1] == Yield(0) && Enabled(After(s, acts), Age)
    ensures After(s, acts).ticks == 2002
    ensures var r := Do(After(s, acts), Age);
            && !Inv(r) && WfTable(r.t) && r.t.proc[2].state == RUNNABLE
            && Entries(r.t, 0) == [1] && Entries(r.t, 1) == [1, 0] && forall l :: 2 <= l < LEVELS ==>
                 Entries(r.t, l) == []
  {
    hide Entries, RingOk, SafeRun, After;
    var r, sc;
    acts, r, sc := Evening(s);
    AgeLoses(r, sc);
  }

  lemma AgeLoses(r: Sys, sc: Scene)
    requires Looks(r, sc)
    requires sc == Scene(Idle, [Brief(RUNNABLE, 1, 2002, 0), Brief(RUNNABLE, 1, 1, 0), Brief(RUNNABLE, 1, 2001, 0)],
                         [], [2, 1, 0], 2002)
    ensures Enabled(r, Age)
    ensures var r' := Do(r, Age);
            && !Inv(r') && WfTable(r'.t) && r'.t.proc[2].state == RUNNABLE
            && Entries(r'.t, 0) == [1] && Entries(r'.t, 1) == [1, 0] && forall l :: 2 <= l < LEVELS ==>
                 Entries(r'.t, l) == []
  {
    hide Entries, RingOk, AgeFrom, AgedAt, RoomFrom, PrefixShaped, PassedFrom;
    ConsistentLevels(r.t);
    assert BriefOf(r.t.proc[0]) == sc.p[0] && BriefOf(r.t.proc[1]) == sc.p[1] && BriefOf(r.t.proc[2]) == sc.p[2];
    OnlyMiddleAged(r.t, 2002);
    IdleScene(r, sc);
    IdleGivesRoom(r.t, 2002);
    AgeingExactly(r.t, 2002);
    StepExactly(r, Age);
    AgeingRaisesByOne(r.t, 2002, 2);
    WrongPopped(r.t, AgeFrom(r.t, 1, 2002), 2002);
  }

  lemma WrongPopped(t: Table, t': Table, ticks: int)
    requires WfTable(t) && WfTable(t') && PassedFrom(t, t', 1, ticks) && AgedAt(t, 1, ticks) == [1]
    requires forall l :: 0 <= l < LEVELS ==> Entries(t, l) == if l == 1 then [2, 1, 0] else []
    ensures !PrefixShaped(t, ticks)
    ensures forall l :: 0 <= l < LEVELS ==> Entries(t', l) == if l == 0 then [1] else if l == 1 then [1, 0] else []
  {
    hide Entries, AgedAt, PassedFrom;
    assert [1][0] != [2, 1, 0][0];
    forall l | 0 <= l < LEVELS ensures Entries(t', l) == if l == 0 then [1] else if l == 1 then [1, 0] else [] {
      PassedRing(t, t', l, ticks);
      NoneQueued(t, if l == 0 then 2 else l + 1, ticks);
      if l > 1 { NoneQueued(t, l, ticks); }
    }
  }

  lemma NoneQueued(t: Table, m: nat, ticks: int)
    requires WfTable(t) && (m < LEVELS ==> Entries(t, m) == [])
    ensures AgedAt(t, m, ticks) == []
  {
    hide Entries;
  }
}
