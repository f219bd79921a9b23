/**
  The priority scheduler (PBS) of proc.c: the scan that picks the lexicographically least
  (priority, last_executed), and how often other processes can run before one that waits.
 */
module Pbs {
  import opened Finite
  import opened Rings

  /** p is to be preferred to q, or ties with it. */
  predicate Before(p: Proc, q: Proc)
  {
    p.priority < q.priority || (p.priority == q.priority && p.lastExecuted <= q.lastExecuted)
  }

  /** h is the first of the best RUNNABLE processes. */
  predicate Best(proc: seq<Proc>, h: nat)
  {
    && h < |proc| && proc[h].state == RUNNABLE
    && (forall q :: 0 <= q < |proc| && proc[q].state == RUNNABLE ==> Before(proc[h], proc[q]))
    && (forall q :: 0 <= q < h && proc[q].state == RUNNABLE ==> !Before(proc[q], proc[h]))
  }

  /** The scan of the process table. */
  method Pick(proc: array<Proc>) returns (found: bool, high: nat)
    requires proc.Length == NPROC
    ensures found <==> exists q :: 0 <= q < NPROC && proc[q].state == RUNNABLE
    ensures found ==> Best(proc[..], high)
  {
    found, high := false, 0;
    var p := 0;
    while p < NPROC
      invariant 0 <= p <= NPROC
      invariant found <==> exists q :: 0 <= q < p && proc[q].state == RUNNABLE
      invariant found ==> high < p && Best(proc[..p], high)
    {
      if found {
        if proc[p].state == RUNNABLE && proc[high].priority > proc[p].priority {
          high := p;
        } else if proc[p].state == RUNNABLE && proc[high].priority == proc[p].priority {
          if proc[p].lastExecuted < proc[high].lastExecuted {
            high := p;
          }
        }
      } else if proc[p].state == RUNNABLE {
        found, high := true, p;
      }
      p := p + 1;
    }
    assert proc[..p] == proc[..];
  }

  // ---- runs ----

  datatype Sys = Sys(proc: seq<Proc>, ticks: int, nextpid: nat)

  datatype Action =
    | Tick                               // the clock advances
    | Charge(p: nat)                     // the timer interrupt on the CPU that runs p
    | Dispatch(p: nat)
    | Leave(p: nat, state: ProcState)    // yield, sleep or exit
    | WakeUp(p: nat)
    | Fork(p: nat)                       // a child with a new pid becomes RUNNABLE
    | Reap(p: nat)
    | Chpr(p: nat, priority: int)

  predicate Wf(s: Sys)
  {
    && |s.proc| == NPROC && s.nextpid >= 1
    && forall p :: 0 <= p < NPROC ==> s.proc[p].pid < s.nextpid && (s.proc[p].state != UNUSED ==> s.proc[p].pid > 0)
  }

  predicate Enabled(s: Sys, a: Action)
  {
    && Wf(s)
    && match a
       case Tick => true
       case Charge(p) => p < NPROC && s.proc[p].state == RUNNING
       case Dispatch(p) => p < NPROC && Best(s.proc, p)
       case Leave(p, st) => p < NPROC && s.proc[p].state == RUNNING
           && (st == RUNNABLE || st == SLEEPING || st == ZOMBIE)
       case WakeUp(p) => p < NPROC && s.proc[p].state == SLEEPING
       case Fork(p) => p < NPROC && s.proc[p].state == UNUSED
       case Reap(p) => p < NPROC && s.proc[p].state == ZOMBIE
       case Chpr(p, v) => p < NPROC && s.proc[p].state == RUNNING
  }

  function Do(s: Sys, a: Action): (s': Sys)
    requires Enabled(s, a)
    ensures Wf(s')
  {
    match a
    case Tick => s.(ticks := s.ticks + 1)
    case Charge(p) => s.(proc := s.proc[p := s.proc[p].(lastExecuted := s.ticks)])
    case Dispatch(p) => s.(proc := s.proc[p := s.proc[p].(state := RUNNING, lastExecuted := s.ticks)])
    case Leave(p, st) => s.(proc := s.proc[p := s.proc[p].(state := st)])
    case WakeUp(p) => s.(proc := s.proc[p := s.proc[p].(state := RUNNABLE)])
    case Fork(p) =>
      Sys(s.proc[p := s.proc[p].(state := RUNNABLE, pid := s.nextpid, priority := 60, lastExecuted := 0)], s.ticks,
          s.nextpid + 1)
    case Reap(p) => s.(proc := s.proc[p := s.proc[p].(state := UNUSED, pid := 0)])
    case Chpr(p, v) => s.(proc := s.proc[p := s.proc[p].(priority := v)])
  }

  /** The states of a run: states[k+1] follows states[k] by acts[k]. */
  predicate IsRun(states: seq<Sys>, acts: seq<Action>)
  {
    && |states| == |acts| + 1 && Wf(states[0])
    && forall k :: 0 <= k < |acts| ==> Enabled(states[k], acts[k]) && states[k + 1] == Do(states[k], acts[k])
  }

  // ---- what the history of a run tells about a process ----

  /** The clock: one more for each tick. */
  function TicksTold(acts: seq<Action>, t0: int): (t: int)
  {
    if acts == [] then t0 else
      TicksTold(acts[..|acts| - 1], t0) + if acts[|acts| - 1].Tick? then 1 else 0
  }

  /** The state of slot p: what was last done to it. */
  function StateTold(acts: seq<Action>, p: nat, st0: ProcState): (st: ProcState)
  {
    if acts == [] then st0 else
      match acts[|acts| - 1]
      case Dispatch(q) => if q == p then RUNNING else StateTold(acts[..|acts| - 1], p, st0)
      case Leave(q, st) => if q == p then st else StateTold(acts[..|acts| - 1], p, st0)
      case WakeUp(q) => if q == p then RUNNABLE else StateTold(acts[..|acts| - 1], p, st0)
      case Fork(q) => if q == p then RUNNABLE else StateTold(acts[..|acts| - 1], p, st0)
      case Reap(q) => if q == p then UNUSED else StateTold(acts[..|acts| - 1], p, st0)
      case _ => StateTold(acts[..|acts| - 1], p, st0)
  }

  /** The priority: what it was last set to, 60 from a fork on. */
  function PriorityTold(acts: seq<Action>, p: nat, v0: int): (v: int)
  {
    if acts == [] then v0 else
      match acts[|acts| - 1]
      case Fork(q) => if q == p then 60 else PriorityTold(acts[..|acts| - 1], p, v0)
      case Chpr(q, v) => if q == p then v else PriorityTold(acts[..|acts| - 1], p, v0)
      case _ => PriorityTold(acts[..|acts| - 1], p, v0)
  }

  /** last_executed: the tick at which it was last dispatched or running at a clock interrupt, 0 from a fork on. */
  function LastTold(acts: seq<Action>, p: nat, t0: int, l0: int): (t: int)
  {
    if acts == [] then l0 else
      var before, a := acts[..|acts| - 1], acts[|acts| - 1];
      if (a.Dispatch? || a.Charge?) && a.p == p then TicksTold(before, t0)
      else if a.Fork? && a.p == p then 0
      else LastTold(before, p, t0, l0)
  }

  /** Every run: the state, the priority and the last run of each process are what its history says. */
  lemma {:induction false} HistoryTells(states: seq<Sys>, acts: seq<Action>, p: nat)
    requires IsRun(states, acts) && p < NPROC
    ensures Wf(states[|acts|]) && states[|acts|].ticks == TicksTold(acts, states[0].ticks)
    ensures var q, q0 := states[|acts|].proc[p], states[0].proc[p];
            && q.state == StateTold(acts, p, q0.state) && q.priority == PriorityTold(acts, p, q0.priority)
            && q.lastExecuted == LastTold(acts, p, states[0].ticks, q0.lastExecuted)
  {
    if acts != [] {
      var n := |acts| - 1;
      HistoryTells(states[..n + 1], acts[..n], p);
      assert states[n + 1] == Do(states[n], acts[n]);
    }
  }

  /** A processor is never left idle: while some process is RUNNABLE one of them can be dispatched. */
  lemma {:induction false} SomeoneIsBest(proc: seq<Proc>, q: nat) returns (h: nat)
    requires q < |proc| && proc[q].state == RUNNABLE
    ensures Best(proc, h)
  {
    var n := |proc| - 1;
    if q < n || exists r :: 0 <= r < n && proc[r].state == RUNNABLE {
      var r: nat :| r < n && proc[r].state == RUNNABLE;
      h := SomeoneIsBest(proc[..n], r);
      if proc[n].state == RUNNABLE && !Before(proc[h], proc[n]) { h := n; }
    } else {
      h := q;
    }
  }

  /** In every state of the run q waits, RUNNABLE, at the least priority value among the RUNNABLE ones. */
  predicate WaitsAtMinimum(states: seq<Sys>, q: nat)
  {
    forall k :: 0 <= k < |states| ==>
      && |states[0].proc| == |states[k].proc| == NPROC && q < NPROC
      && states[k].proc[q].state == RUNNABLE && states[k].proc[q].pid == states[0].proc[q].pid
      && forall r :: 0 <= r < NPROC && states[k].proc[r].state == RUNNABLE ==>
           states[k].proc[q].priority <= states[k].proc[r].priority
  }

  lemma StepWf(states: seq<Sys>, acts: seq<Action>, k: nat)
    requires IsRun(states, acts) && k < |states|
    ensures Wf(states[k])
  {
    if k > 0 { assert states[k - 1 + 1] == Do(states[k - 1], acts[k - 1]); }
  }

  /** While q waits its last_executed and its priority stay the same. */
  lemma {:induction false} WaiterUnchanged(states: seq<Sys>, acts: seq<Action>, q: nat, k: nat)
    requires IsRun(states, acts) && WaitsAtMinimum(states, q) && k < |states|
    ensures q < NPROC && |states[0].proc| == |states[k].proc| == NPROC && states[k].proc[q] == states[0].proc[q]
  {
    if k > 0 {
      WaiterUnchanged(states, acts, q, k - 1);
      assert states[k - 1 + 1] == Do(states[k - 1], acts[k - 1]);
      assert states[k].proc[q].pid == states[k - 1].proc[q].pid;
    }
  }

  /** Process pid in slot r has run later than the waiting process last did. */
  predicate RanLater(s: Sys, r: nat, pid: nat, last: int)
  {
    && Wf(s) && r < NPROC && 0 < pid < s.nextpid && s.ticks > last
    && (s.proc[r].pid == pid ==> s.proc[r].lastExecuted > last)
  }

  lemma {:induction false} RanLaterStays(states: seq<Sys>, acts: seq<Action>, r: nat, pid: nat, last: int, i: nat,
          j: nat)
    requires IsRun(states, acts) && i <= j < |states| && RanLater(states[i], r, pid, last)
    ensures RanLater(states[j], r, pid, last)
    decreases j - i
  {
    if i < j {
      RanLaterStays(states, acts, r, pid, last, i, j - 1);
      assert states[j - 1 + 1] == Do(states[j - 1], acts[j - 1]);
    }
  }

  /**
    Bounded overtaking: while q waits at the minimum priority value, a process is dispatched
    at most once at a tick later than q's last_executed.
   */
  lemma DispatchedOnce(states: seq<Sys>, acts: seq<Action>, q: nat, i: nat, j: nat)
    requires IsRun(states, acts) && WaitsAtMinimum(states, q)
    requires i < j < |acts| && acts[i].Dispatch? && acts[j].Dispatch? && acts[i].p == acts[j].p
    requires |states[0].proc| == NPROC && q < NPROC && states[i].ticks > states[0].proc[q].lastExecuted
    ensures |states[i].proc| == |states[j].proc| == NPROC && acts[i].p < NPROC
    ensures states[j].proc[acts[j].p].pid != states[i].proc[acts[i].p].pid
  {
    var r, last := acts[i].p, states[0].proc[q].lastExecuted;
    assert Enabled(states[i], acts[i]) && Enabled(states[j], acts[j]);
    var pid := states[i].proc[r].pid;
    assert states[i + 1] == Do(states[i], acts[i]);
    assert RanLater(states[i + 1], r, pid, last);
    RanLaterStays(states, acts, r, pid, last, i + 1, j);
    WaiterUnchanged(states, acts, q, j);
    assert Before(states[j].proc[r], states[j].proc[q]);
  }

  /** Without forks a slot keeps its process or loses it for good. */
  lemma {:induction false} PidStays(states: seq<Sys>, acts: seq<Action>, r: nat, i: nat, j: nat)
    requires IsRun(states, acts) && i <= j < |states| && r < NPROC && forall k :: 0 <= k < |acts| ==> !acts[k].Fork?
    ensures |states[i].proc| == |states[j].proc| == NPROC
    ensures states[j].proc[r].pid == states[i].proc[r].pid || states[j].proc[r].pid == 0
    decreases j - i
  {
    StepWf(states, acts, i);
    if i < j {
      PidStays(states, acts, r, i, j - 1);
      assert states[j - 1 + 1] == Do(states[j - 1], acts[j - 1]);
    }
  }

  /**
    Bounded waiting: among the dispatches at ticks later than the waiting process's
    last_executed, in a window without forks, there are fewer than NPROC.
   */
  lemma WaitIsBounded(states: seq<Sys>, acts: seq<Action>, q: nat, idx: seq<nat>)
    requires IsRun(states, acts) && WaitsAtMinimum(states, q) && forall k :: 0 <= k < |acts| ==> !acts[k].Fork?
    requires |states[0].proc| == NPROC && q < NPROC
    requires forall a, b :: 0 <= a < b < |idx| ==> idx[a] < idx[b]
    requires forall a :: 0 <= a < |idx| ==>
               idx[a] < |acts| && acts[idx[a]].Dispatch? && states[idx[a]].ticks > states[0].proc[q].lastExecuted
    ensures |idx| < NPROC
  {
    var slots: seq<nat> := seq(|idx|, a requires 0 <= a < |idx| => acts[idx[a]].p) + [q];
    forall a | 0 <= a < |idx| ensures slots[a] < NPROC && slots[a] != q {
      assert Enabled(states[idx[a]], acts[idx[a]]);
      assert states[idx[a] + 1] == Do(states[idx[a]], acts[idx[a]]);
    }
    forall a, b | 0 <= a < b < |slots| ensures slots[a] != slots[b] {
      if b < |idx| {
        assert Enabled(states[idx[b]], acts[idx[b]]);
        PidStays(states, acts, slots[a], idx[a], idx[b]);
        if slots[a] == slots[b] { DispatchedOnce(states, acts, q, idx[a], idx[b]); }
      }
    }
    Covers(slots, NPROC);
  }
}
