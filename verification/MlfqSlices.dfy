/** Time slices of the MLFQ scheduler, whatever the other CPUs, processes and interrupts do meanwhile. */
module MlfqSlices {
  import opened Rings
  import opened Mlfq
  import opened Ageing
  import opened MlfqRuns

  // ---- what a step does to the rings ----

  /** Ring l after a step that neither ages nor resets nor kills. */
  ghost function RingAfter(s: Sys, a: Action, l: nat): (es: seq<nat>)
    requires Enabled(s, a) && l < LEVELS
  {
    match a
    case Boot(p) => Entries(s.t, l) + if l == 0 then [p] else []
    case Start(c, p) => Entries(s.t, l) + if l == 0 then [p] else []
    case Dispatch(c) => if l == FirstLevel(s.t, 0) then Entries(s.t, l)[1..] else Entries(s.t, l)
    case Yield(c) =>
      var p := s.cpus[c].p;
      Entries(s.t, l) + if LastTick(s, c) && l == Demoted(s.t.proc[p].queue) then [p] else []
    case Wakeup(chan) => Entries(s.t, l) + Woken(s.t, chan, l, 0)
    case _ => Entries(s.t, l)
  }

  lemma JoinEntries(t: Table, m: nat, p: nat, l: nat)
    requires Consistent(t, {}) && p < NPROC && m < LEVELS && l < LEVELS && |Entries(t, m)| < NPROC - 1
    ensures Entries(Enqueue(SetState(t, p, RUNNABLE), m, p), l) == Entries(t, l) + if l == m then [p] else []
  {
    hide Entries;
    var t1 := SetState(t, p, RUNNABLE);
    SameRings(t, t1, l);
    SameRings(t, t1, m);
    EnqueueEntries(t1, m, p);
  }

  lemma StepEntries(s: Sys, a: Action, l: nat)
    requires Inv(s) && Enabled(s, a) && Safe(s, a) && !a.Age? && !a.Reset? && !a.KillPid? && l < LEVELS
    ensures Inv(Do(s, a)) && Entries(Do(s, a).t, l) == RingAfter(s, a, l)
  {
    hide Entries, RingOk, Enqueue, WakeFrom;
    StepExactly(s, a);
    match a {
      case Boot(p) => TwoOutside(s.t, 0, p, if p == 0 then 1 else 0); JoinEntries(s.t, 0, p, l);
      case Start(c, p) => BusyBooted(s, c); TwoOutside(s.t, 0, p, s.cpus[c].p); JoinEntries(s.t, 0, p, l);
      case Dispatch(c) => RunHeadEntries(s.t, FirstLevel(s.t, 0), l);
      case Yield(c) =>
        if LastTick(s, c) {
          JoinEntries(s.t, Demoted(s.t.proc[s.cpus[c].p].queue), s.cpus[c].p, l);
        } else {
          SameRings(s.t, Do(s, a).t, l);
        }
      case Wakeup(chan) => WakeupOrder(s.t, chan, 0, l);
      case Alloc(_) => SameRings(s.t, Do(s, a).t, l);
      case Abandon(_) => SameRings(s.t, Do(s, a).t, l);
      case Sleep(_, _) => SameRings(s.t, Do(s, a).t, l);
      case Exit(_) => SameRings(s.t, Do(s, a).t, l);
      case Reap(_) => SameRings(s.t, Do(s, a).t, l);
      case Charge(_) => SameRings(s.t, Do(s, a).t, l);
      case _ =>
    }
  }

  // ---- slices ----

  /** How often the process on c has given up the CPU at a tick. */
  function Yields(acts: seq<Action>, c: nat): (n: nat)
  {
    if acts == [] then 0 else Yields(acts[..|acts| - 1], c) + if acts[|acts| - 1] == Yield(c) then 1 else 0
  }

  /** The process on c neither sleeps nor exits. */
  predicate StaysOn(acts: seq<Action>, c: nat)
  {
    forall k :: 0 <= k < |acts| ==> !(acts[k].Sleep? && acts[k].c == c) && acts[k] != Exit(c)
  }

  function Pow2(n: nat): (r: nat)
  {
    if n == 0 then 1 else 2 * Pow2(n - 1)
  }

  lemma SliceIs(l: nat)
    requires l < LEVELS
    ensures Slice(l) == Pow2(l)
  {
    assert Pow2(0) == 1 && Pow2(1) == 2 && Pow2(2) == 4 && Pow2(3) == 8 && Pow2(4) == 2 * Pow2(3);
  }

  /** No step but its own takes a process off its CPU or moves it to another level. */
  lemma OtherStep(s: Sys, a: Action, c: nat)
    requires Inv(s) && Enabled(s, a) && Runs(s, c) && Inv(Do(s, a))
    requires a != Yield(c) && !(a.Sleep? && a.c == c) && a != Exit(c)
    ensures var p := s.cpus[c].p;
            c < |Do(s, a).cpus| && Do(s, a).cpus[c] == s.cpus[c] && Do(s, a).t.proc[p].queue == s.t.proc[p].queue
  {
    hide Entries, RingOk, Enqueue, WakeFrom, AgeFrom, Kill;
    BusyBooted(s, c);
    match a {
      case Start(_, p) => EnqueueProc(SetState(s.t, p, RUNNABLE), 0, p);
      case Yield(d) =>
        BusyBooted(s, d);
        var p := s.cpus[d].p;
        EnqueueProc(SetState(s.t, p, RUNNABLE), Demoted(s.t.proc[p].queue), p);
      case Sleep(d, _) => BusyBooted(s, d);
      case Exit(d) => BusyBooted(s, d);
      case Wakeup(chan) => WakeProcs(s.t, chan, 0);
      case KillPid(_, pid) => KillProcs(s.t, pid);
      case Age => AgeingRaisesByOne(s.t, s.ticks, s.cpus[c].p);
      case Dispatch(d) => DequeueProc(s.t, FirstLevel(s.t, 0)); RunHeadConsistent(s.t, FirstLevel(s.t, 0));
      case _ =>
    }
  }

  /** CPU c is in tick n of the slice of process p at level m. */
  ghost predicate InSlice(r: Sys, c: nat, p: nat, m: nat, n: nat)
  {
    Inv(r) && Runs(r, c) && r.cpus[c] == Busy(p, n) && r.t.proc[p].queue == m
  }

  lemma SliceStarts(s: Sys, c: nat)
    requires Inv(s) && Enabled(s, Dispatch(c))
    ensures var m := FirstLevel(s.t, 0);
            InSlice(Do(s, Dispatch(c)), c, Entries(s.t, m)[0], m, 0)
  {
    hide Entries, RingOk;
    var m := FirstLevel(s.t, 0);
    DispatchStep(s, c);
    RunHeadConsistent(s.t, m);
    DequeueProc(s.t, m);
  }

  lemma SliceGoesOn(r: Sys, c: nat, p: nat, m: nat, n: nat)
    requires InSlice(r, c, p, m, n) && n + 1 < Pow2(m)
    ensures Enabled(r, Yield(c)) && InSlice(Do(r, Yield(c)), c, p, m, n + 1)
  {
    hide Entries, RingOk, Slice;
    SliceIs(m);
    StepExactly(r, Yield(c));
  }

  /**
    A dispatched process that neither sleeps nor exits keeps its CPU and its level through fewer than 2^level
    ticks, whatever other steps a safe run interleaves.
   */
  lemma {:induction false} RunsWholeSlice(s: Sys, c: nat, acts: seq<Action>)
    requires Inv(s) && Enabled(s, Dispatch(c)) && SafeRun(Do(s, Dispatch(c)), acts)
    requires StaysOn(acts, c) && Yields(acts, c) < Pow2(FirstLevel(s.t, 0))
    ensures var m := FirstLevel(s.t, 0);
            InSlice(After(Do(s, Dispatch(c)), acts), c, Entries(s.t, m)[0], m, Yields(acts, c))
  {
    hide Inv, Do, Entries, InSlice, Safe, Pow2;
    var s1, m := Do(s, Dispatch(c)), FirstLevel(s.t, 0);
    SliceStarts(s, c);
    if acts != [] {
      var before, a := acts[..|acts| - 1], acts[|acts| - 1];
      RunsWholeSlice(s, c, before);
      SliceStep(After(s1, before), a, c, Entries(s.t, m)[0], m, Yields(before, c));
    }
  }

  lemma SliceStep(r: Sys, a: Action, c: nat, p: nat, m: nat, n: nat)
    requires InSlice(r, c, p, m, n) && Enabled(r, a) && Safe(r, a) && !(a.Sleep? && a.c == c) && a != Exit(c)
    requires a == Yield(c) ==> n + 1 < Pow2(m)
    ensures InSlice(Do(r, a), c, p, m, if a == Yield(c) then n + 1 else n)
  {
    hide Consistent, CpusOk, BootOk, Do, Enabled, Safe, Pow2;
    StepExactly(r, a);
    if a == Yield(c) {
      SliceGoesOn(r, c, p, m, n);
    } else {
      OtherStep(r, a, c);
      assert Runs(Do(r, a), c);
    }
  }

  lemma EnabledIn(r: Sys, c: nat)
    requires Inv(r) && Runs(r, c)
    ensures Enabled(r, Yield(c))
  {
    hide Entries, RingOk;
  }

  /** At its 2^level-th tick it joins the tail of the next level down, or of the last, as that ring then is. */
  lemma SliceEnds(s: Sys, c: nat, acts: seq<Action>)
    requires Inv(s) && Enabled(s, Dispatch(c)) && SafeRun(Do(s, Dispatch(c)), acts)
    requires StaysOn(acts, c) && Yields(acts, c) + 1 == Pow2(FirstLevel(s.t, 0))
    ensures var r := After(Do(s, Dispatch(c)), acts);
            var m := FirstLevel(s.t, 0);
            var p, d := Entries(s.t, m)[0], if m < 4 then m + 1 else 4;
            && Enabled(r, Yield(c)) && (Safe(r, Yield(c)) <==> |Entries(r.t, d)| < NPROC - 1)
            && (Safe(r, Yield(c)) ==>
                 var r' := Do(r, Yield(c));
                 && Inv(r') && c < |r'.cpus| && r'.cpus[c] == Idle
                 && r'.t.proc[p].state == RUNNABLE && r'.t.proc[p].queue == d
                 && forall l :: 0 <= l < LEVELS ==> Entries(r'.t, l) == Entries(r.t, l) + if l == d then [p] else [])
  {
    hide Consistent, CpusOk, BootOk, Entries, Enqueue, Pow2, Slice, After;
    var r, m := After(Do(s, Dispatch(c)), acts), FirstLevel(s.t, 0);
    RunsWholeSlice(s, c, acts);
    SliceIs(m);
    EnabledIn(r, c);
    if Safe(r, Yield(c)) {
      StepExactly(r, Yield(c));
      EnqueueProc(SetState(r.t, r.cpus[c].p, RUNNABLE), Demoted(m), r.cpus[c].p);
      forall l | 0 <= l < LEVELS ensures Entries(Do(r, Yield(c)).t, l) == RingAfter(r, Yield(c), l)
      { StepEntries(r, Yield(c), l); }
    }
  }
}
