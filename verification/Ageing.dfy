/**
  The ageing pass of the MLFQ scheduler: for each level from 1 on, each entry that has not
  run for more than AGEING ticks pops the head of its ring and is itself appended one level up.
 */
module Ageing {
  import opened Finite
  import opened Rings
  import opened Mlfq

  const AGEING: nat := 1000

  predicate IsAged(q: Proc, ticks: int)
  {
    ticks - q.lastExecuted > AGEING
  }

  /** The entries of es that are aged, in order. */
  function Aged(proc: seq<Proc>, es: seq<nat>, ticks: int): (r: seq<nat>)
    requires Below(es, |proc|)
  {
    if es == [] then [] else
      (if IsAged(proc[es[0]], ticks) then [es[0]] else []) + Aged(proc, es[1..], ticks)
  }

  ghost predicate AtLevel(t: Table, l: nat, es: seq<nat>)
    requires WfTable(t)
  {
    Distinct(es) && Below(es, NPROC) && forall i :: 0 <= i < |es| ==> t.proc[es[i]].queue == l
  }

  /** The scan of ring l, with es the entries still to be looked at. */
  function AgeScan(t: Table, l: nat, es: seq<nat>, ticks: int): (t': Table)
    requires WfLevels(t) && 1 <= l < LEVELS && AtLevel(t, l, es)
    ensures WfLevels(t')
    decreases |es|
  {
    if es == [] then t else
      var p := es[0];
      AgeScan(if IsAged(t.proc[p], ticks) then Enqueue(Dequeue(t, l), t.proc[p].queue - 1, p) else t, l, es[1..], ticks)
  }

  // ---- the aged entries of a sequence ----

  lemma {:induction false} AgedConcat(proc: seq<Proc>, a: seq<nat>, b: seq<nat>, ticks: int)
    requires Below(a, |proc|) && Below(b, |proc|)
    ensures Below(a + b, |proc|) && Aged(proc, a + b, ticks) == Aged(proc, a, ticks) + Aged(proc, b, ticks)
  {
    if a == [] {
      assert a + b == b;
    } else {
      var c := a + b;
      assert c[0] == a[0] && c[1..] == a[1..] + b;
      AgedConcat(proc, a[1..], b, ticks);
      var x := if IsAged(proc[a[0]], ticks) then [a[0]] else [];
      assert Aged(proc, c, ticks) == x + Aged(proc, c[1..], ticks);
      assert x + (Aged(proc, a[1..], ticks) + Aged(proc, b, ticks))
          == (x + Aged(proc, a[1..], ticks)) + Aged(proc, b, ticks);
    }
  }

  lemma {:induction false} AgedMembers(proc: seq<Proc>, es: seq<nat>, ticks: int)
    requires Below(es, |proc|)
    ensures |Aged(proc, es, ticks)| <= |es|
    ensures forall p :: p in Aged(proc, es, ticks) <==> p in es && IsAged(proc[p], ticks)
    ensures Distinct(es) ==> Distinct(Aged(proc, es, ticks))
  {
    if es != [] {
      AgedMembers(proc, es[1..], ticks);
      assert es == [es[0]] + es[1..];
    }
  }

  lemma {:induction false} AllAged(proc: seq<Proc>, es: seq<nat>, ticks: int)
    requires Below(es, |proc|) && forall i :: 0 <= i < |es| ==> IsAged(proc[es[i]], ticks)
    ensures Aged(proc, es, ticks) == es
  {
    if es != [] { AllAged(proc, es[1..], ticks); }
  }

  lemma {:induction false} AgedSame(proc: seq<Proc>, proc': seq<Proc>, es: seq<nat>, ticks: int)
    requires |proc| == |proc'| && Below(es, |proc|)
    requires forall p :: 0 <= p < |proc| ==> proc'[p].lastExecuted == proc[p].lastExecuted
    ensures Aged(proc', es, ticks) == Aged(proc, es, ticks)
  {
    if es != [] { AgedSame(proc, proc', es[1..], ticks); }
  }

  /** The aged entries come first. */
  predicate AgedPrefix(proc: seq<Proc>, es: seq<nat>, ticks: int)
    requires Below(es, |proc|)
  {
    Aged(proc, es, ticks) <= es
  }

  /** If the aged entries are not a prefix, some entry among as many first ones is not aged. */
  lemma NotPrefix(proc: seq<Proc>, es: seq<nat>, ticks: int) returns (i: nat)
    requires Below(es, |proc|) && !AgedPrefix(proc, es, ticks)
    ensures i < |Aged(proc, es, ticks)| <= |es| && !IsAged(proc[es[i]], ticks)
  {
    AgedMembers(proc, es, ticks);
    var n := |Aged(proc, es, ticks)|;
    if forall k :: 0 <= k < n ==> IsAged(proc[es[k]], ticks) {
      assert es == es[..n] + es[n..];
      AgedConcat(proc, es[..n], es[n..], ticks);
      AllAged(proc, es[..n], ticks);
      assert false;
    }
    i :| 0 <= i < n && !IsAged(proc[es[i]], ticks);
  }

  // ---- one level ----

  /** Processes are as in t except that those in moved are at level l. */
  ghost predicate Raised(proc: seq<Proc>, proc': seq<Proc>, moved: seq<nat>, l: nat)
  {
    && |proc'| == |proc|
    && forall p :: 0 <= p < |proc| ==> proc'[p] == if p in moved then proc[p].(queue := l) else proc[p]
  }

  /** Ring l lost as many entries at its head as were moved; ring l-1 gained the moved ones at its tail. */
  ghost predicate Moved(t: Table, t': Table, l: nat, moved: seq<nat>)
    requires WfTable(t) && WfTable(t') && 1 <= l < LEVELS
  {
    && |moved| <= |Entries(t, l)|
    && Entries(t', l) == Entries(t, l)[|moved|..]
    && Entries(t', l - 1) == Entries(t, l - 1) + moved
    && (forall m :: 0 <= m < LEVELS && m != l && m != l - 1 ==> Entries(t', m) == Entries(t, m))
    && Raised(t.proc, t'.proc, moved, l - 1)
  }

  lemma MoveOne(t: Table, l: nat, p: nat)
    requires WfTable(t) && 1 <= l < LEVELS && p < NPROC
    requires Entries(t, l) != [] && |Entries(t, l - 1)| < NPROC - 1
    ensures Moved(t, Enqueue(Dequeue(t, l), l - 1, p), l, [p])
  {
    hide Entries;
    DequeueEntries(t, l);
    EnqueueEntries(Dequeue(t, l), l - 1, p);
  }

  lemma MoveMore(t: Table, t1: Table, t2: Table, l: nat, a: seq<nat>, b: seq<nat>)
    requires WfTable(t) && WfTable(t1) && WfTable(t2) && 1 <= l < LEVELS
    requires Moved(t, t1, l, a) && Moved(t1, t2, l, b)
    ensures Moved(t, t2, l, a + b)
  {
    hide Entries;
    assert Entries(t, l)[|a|..][|b|..] == Entries(t, l)[|a + b|..];
    assert Entries(t, l - 1) + a + b == Entries(t, l - 1) + (a + b);
  }

  lemma {:induction false} ScanResult(t: Table, l: nat, es: seq<nat>, ticks: int)
    requires WfLevels(t) && 1 <= l < LEVELS && AtLevel(t, l, es)
    requires |Aged(t.proc, es, ticks)| <= |Entries(t, l)|
    requires |Entries(t, l - 1)| + |Aged(t.proc, es, ticks)| < NPROC
    ensures Moved(t, AgeScan(t, l, es, ticks), l, Aged(t.proc, es, ticks))
    decreases |es|
  {
    hide Entries;
    if es != [] {
      var p, rest := es[0], es[1..];
      var more := Aged(t.proc, rest, ticks);
      if IsAged(t.proc[p], ticks) {
        var t1 := Enqueue(Dequeue(t, l), l - 1, p);
        MoveOne(t, l, p);
        AgedSame(t.proc, t1.proc, rest, ticks);
        ScanResult(t1, l, rest, ticks);
        MoveMore(t, t1, AgeScan(t1, l, rest, ticks), l, [p], more);
      } else {
        ScanResult(t, l, rest, ticks);
        assert [] + more == more;
      }
    }
  }

  // ---- the whole pass ----

  /** Levels l and up hold distinct processes of their own level. */
  ghost predicate LevelsOk(t: Table, l: nat)
  {
    WfLevels(t) && forall m :: l <= m < LEVELS ==> AtLevel(t, m, Entries(t, m))
  }

  function AgeLevel(t: Table, l: nat, ticks: int): (t': Table)
    requires 1 <= l < LEVELS && LevelsOk(t, l)
  {
    AgeScan(t, l, Entries(t, l), ticks)
  }

  /** Not every process is RUNNABLE (a process that runs the scheduler's last dispatch, say). */
  predicate SomeIdle(proc: seq<Proc>)
  {
    exists q :: 0 <= q < |proc| && proc[q].state != RUNNABLE
  }

  ghost predicate AllRunnable(proc: seq<Proc>, es: seq<nat>)
  {
    Below(es, |proc|) && forall i :: 0 <= i < |es| ==> proc[es[i]].state == RUNNABLE
  }

  /** Distinct RUNNABLE processes fit a ring when some process is not RUNNABLE. */
  lemma FitsRing(proc: seq<Proc>, a: seq<nat>, b: seq<nat>)
    requires |proc| == NPROC && SomeIdle(proc) && AllRunnable(proc, a) && AllRunnable(proc, b)
    requires Distinct(a) && Distinct(b) && forall x :: x in a ==> x !in b
    ensures |a| + |b| < NPROC
  {
    var q: nat :| q < |proc| && proc[q].state != RUNNABLE;
    var all := a + b + [q];
    forall i, j | 0 <= i < j < |all| ensures all[i] != all[j] {
      if i < |a| <= j < |a| + |b| { assert all[i] in a && all[j] in b; }
    }
    Covers(all, NPROC);
  }

  /** The scan raises the aged entries it meets, whatever becomes of the rings. */
  lemma {:induction false} ScanProcs(t: Table, l: nat, es: seq<nat>, ticks: int)
    requires WfLevels(t) && 1 <= l < LEVELS && AtLevel(t, l, es)
    ensures Raised(t.proc, AgeScan(t, l, es, ticks).proc, Aged(t.proc, es, ticks), l - 1)
    decreases |es|
  {
    hide Entries;
    if es != [] {
      var p, rest := es[0], es[1..];
      if IsAged(t.proc[p], ticks) {
        var t1 := Enqueue(Dequeue(t, l), l - 1, p);
        AgedSame(t.proc, t1.proc, rest, ticks);
        ScanProcs(t1, l, rest, ticks);
      } else {
        ScanProcs(t, l, rest, ticks);
      }
    }
  }

  /** Scanning ring l leaves the higher-numbered rings and the processes outside es alone. */
  lemma {:induction false} ScanUpper(t: Table, l: nat, es: seq<nat>, ticks: int)
    requires WfLevels(t) && 1 <= l < LEVELS && AtLevel(t, l, es)
    ensures forall m :: l < m < LEVELS ==> Entries(AgeScan(t, l, es, ticks), m) == Entries(t, m)
    ensures forall p :: 0 <= p < NPROC && p !in es ==> AgeScan(t, l, es, ticks).proc[p] == t.proc[p]
    decreases |es|
  {
    if es != [] {
      var p, rest := es[0], es[1..];
      if IsAged(t.proc[p], ticks) {
        var t1 := Enqueue(Dequeue(t, l), l - 1, p);
        forall m | l < m < LEVELS ensures Entries(t1, m) == Entries(t, m) { OtherRing(t, l, p, m); }
        hide Entries;
        ScanUpper(t1, l, rest, ticks);
      } else {
        hide Entries;
        ScanUpper(t, l, rest, ticks);
      }
    }
  }

  lemma OtherRing(t: Table, l: nat, p: nat, m: nat)
    requires WfTable(t) && 1 <= l < m < LEVELS && p < NPROC
    ensures Entries(Enqueue(Dequeue(t, l), l - 1, p), m) == Entries(t, m)
  {
    EnqueueEntries(Dequeue(t, l), l - 1, p);
  }

  lemma AgeLevelKeeps(t: Table, l: nat, ticks: int)
    requires 1 <= l < LEVELS && LevelsOk(t, l)
    ensures LevelsOk(AgeLevel(t, l, ticks), l + 1)
  {
    hide Entries;
    ScanUpper(t, l, Entries(t, l), ticks);
    var t' := AgeLevel(t, l, ticks);
    forall m | l < m < LEVELS ensures AtLevel(t', m, Entries(t', m)) {
      assert AtLevel(t, m, Entries(t, m));
      forall i | 0 <= i < |Entries(t, m)| ensures t'.proc[Entries(t, m)[i]].queue == m {
        assert Entries(t, m)[i] !in Entries(t, l);
      }
    }
  }

  /** The pass over levels l, l+1, ..., LEVELS-1. */
  function AgeFrom(t: Table, l: nat, ticks: int): (t': Table)
    requires 1 <= l <= LEVELS && LevelsOk(t, l)
    decreases LEVELS - l
  {
    if l == LEVELS then t else
      AgeLevelKeeps(t, l, ticks);
      AgeFrom(AgeLevel(t, l, ticks), l + 1, ticks)
  }

  /** The aged entries of ring m, none above the last level. */
  function AgedAt(t: Table, m: nat, ticks: int): (r: seq<nat>)
    requires WfTable(t)
  {
    if m < LEVELS && Below(Entries(t, m), NPROC) then Aged(t.proc, Entries(t, m), ticks) else []
  }

  /** No ring from level l-1 on would come to hold NPROC entries, one more than it can. */
  ghost predicate RoomFrom(t: Table, l: nat, ticks: int)
    requires WfTable(t) && 1 <= l <= LEVELS
  {
    forall m :: l <= m < LEVELS ==> Gathered(t, l, m, ticks) < NPROC
  }

  /** How many entries ring m-1 has once the aged ones of ring m have joined those it kept. */
  function Gathered(t: Table, l: nat, m: nat, ticks: int): (n: int)
    requires WfTable(t) && 1 <= l <= m < LEVELS
  {
    |Entries(t, m - 1)| - (if m > l then |AgedAt(t, m - 1, ticks)| else 0) + |AgedAt(t, m, ticks)|
  }

  /** Where every ring and every process ends up after the pass from level l on. */
  ghost predicate PassedFrom(t: Table, t': Table, l: nat, ticks: int)
    requires WfTable(t) && WfTable(t') && 1 <= l <= LEVELS
  {
    && (forall m :: 0 <= m < l - 1 ==> Entries(t', m) == Entries(t, m))
    && Entries(t', l - 1) == Entries(t, l - 1) + AgedAt(t, l, ticks)
    && (forall m :: l <= m < LEVELS ==>
          |AgedAt(t, m, ticks)| <= |Entries(t, m)|
              && Entries(t', m) == Entries(t, m)[|AgedAt(t, m, ticks)|..] + AgedAt(t, m + 1, ticks))
    && RaisedFrom(t, t', l, ticks)
  }

  /** Who is raised by the pass from level l on. */
  ghost predicate RaisedFrom(t: Table, t': Table, l: nat, ticks: int)
    requires WfTable(t) && WfTable(t') && l >= 1
  {
    forall p :: 0 <= p < NPROC ==>
      t'.proc[p] == if t.proc[p].queue >= l && p in AgedAt(t, t.proc[p].queue, ticks)
                    then t.proc[p].(queue := t.proc[p].queue - 1) else t.proc[p]
  }

  /** The processes one level of the pass raises, whether or not the ring above has room for them. */
  lemma LevelProcs(t: Table, l: nat, ticks: int)
    requires 1 <= l < LEVELS && LevelsOk(t, l)
    ensures WfLevels(AgeLevel(t, l, ticks)) && Raised(t.proc, AgeLevel(t, l, ticks).proc, AgedAt(t, l, ticks), l - 1)
    ensures forall m :: l < m < LEVELS ==> Entries(AgeLevel(t, l, ticks), m) == Entries(t, m)
    ensures forall m :: l < m < LEVELS ==> AgedAt(AgeLevel(t, l, ticks), m, ticks) == AgedAt(t, m, ticks)
    ensures forall p :: p in AgedAt(t, l, ticks) ==> p < NPROC && t.proc[p].queue == l
  {
    hide Entries;
    var es := Entries(t, l);
    var t' := AgeLevel(t, l, ticks);
    assert AtLevel(t, l, es);
    AgedMembers(t.proc, es, ticks);
    ScanProcs(t, l, es, ticks);
    ScanUpper(t, l, es, ticks);
    forall m | l < m < LEVELS ensures AgedAt(t', m, ticks) == AgedAt(t, m, ticks) {
      assert AtLevel(t, m, Entries(t, m));
      AgedSame(t.proc, t'.proc, Entries(t, m), ticks);
    }
  }

  lemma {:induction false} PassProcs(t: Table, l: nat, ticks: int)
    requires 1 <= l <= LEVELS && LevelsOk(t, l)
    ensures WfLevels(AgeFrom(t, l, ticks)) && RaisedFrom(t, AgeFrom(t, l, ticks), l, ticks)
    decreases LEVELS - l
  {
    if l < LEVELS {
      hide Entries, AgedAt, AgeLevel;
      var t1 := AgeLevel(t, l, ticks);
      LevelProcs(t, l, ticks);
      AgeLevelKeeps(t, l, ticks);
      PassProcs(t1, l + 1, ticks);
      hide RaisedFrom, Raised;
      RaisedStep(t, t1, AgeFrom(t1, l + 1, ticks), l, ticks);
    }
  }

  /** Raising at level l and then from level l + 1 on. */
  lemma RaisedStep(t: Table, t1: Table, t2: Table, l: nat, ticks: int)
    requires WfTable(t) && WfTable(t1) && WfTable(t2) && 1 <= l < LEVELS && RaisedFrom(t1, t2, l + 1, ticks)
    requires Raised(t.proc, t1.proc, AgedAt(t, l, ticks), l - 1) && forall p :: 0 <= p < NPROC ==>
             t.proc[p].queue < LEVELS
    requires forall m :: l < m < LEVELS ==> AgedAt(t1, m, ticks) == AgedAt(t, m, ticks)
    requires forall p :: p in AgedAt(t, l, ticks) ==> p < NPROC && t.proc[p].queue == l
    ensures RaisedFrom(t, t2, l, ticks)
  {
    hide AgedAt;
    forall p | 0 <= p < NPROC
      ensures t2.proc[p] == if t.proc[p].queue >= l && p in AgedAt(t, t.proc[p].queue, ticks)
                            then t.proc[p].(queue := t.proc[p].queue - 1) else t.proc[p]
    {
      assert t1.proc[p] == if p in AgedAt(t, l, ticks) then t.proc[p].(queue := l - 1) else t.proc[p];
    }
  }

  /** One level of the pass, with room for it. */
  lemma LevelResult(t: Table, l: nat, ticks: int)
    requires 1 <= l < LEVELS && LevelsOk(t, l) && RoomFrom(t, l, ticks)
    ensures WfTable(AgeLevel(t, l, ticks)) && Moved(t, AgeLevel(t, l, ticks), l, AgedAt(t, l, ticks))
    ensures LevelsOk(AgeLevel(t, l, ticks), l + 1) && RoomFrom(AgeLevel(t, l, ticks), l + 1, ticks)
  {
    hide Entries, AgeScan, RoomFrom, Moved, Aged;
    var es := Entries(t, l);
    assert AtLevel(t, l, es);
    assert Gathered(t, l, l, ticks) < NPROC by { RoomAt(t, l, l, ticks); }
    AgedMembers(t.proc, es, ticks);
    ScanResult(t, l, es, ticks);
    AgeLevelKeeps(t, l, ticks);
    LevelProcs(t, l, ticks);
    RoomNext(t, AgeLevel(t, l, ticks), l, ticks);
  }

  lemma RoomAt(t: Table, l: nat, m: nat, ticks: int)
    requires WfTable(t) && 1 <= l <= m < LEVELS && RoomFrom(t, l, ticks)
    ensures Gathered(t, l, m, ticks) < NPROC
  {}

  /** Once a level has been scanned there is still room for the others. */
  lemma RoomNext(t: Table, t': Table, l: nat, ticks: int)
    requires WfTable(t) && WfTable(t') && 1 <= l < LEVELS && RoomFrom(t, l, ticks)
             && Moved(t, t', l, AgedAt(t, l, ticks))
    requires forall m :: l < m < LEVELS ==> AgedAt(t', m, ticks) == AgedAt(t, m, ticks)
    ensures RoomFrom(t', l + 1, ticks)
  {
    hide Entries, AgedAt;
    var next := l + 1;
    forall m | next <= m < LEVELS ensures Gathered(t', next, m, ticks) < NPROC { RoomAt(t, l, m, ticks); }
  }

  lemma {:induction false} PassResult(t: Table, l: nat, ticks: int)
    requires 1 <= l <= LEVELS && LevelsOk(t, l) && RoomFrom(t, l, ticks)
    ensures WfTable(AgeFrom(t, l, ticks)) && PassedFrom(t, AgeFrom(t, l, ticks), l, ticks)
    decreases LEVELS - l
  {
    hide Entries, AgedAt, RoomFrom;
    if l == LEVELS {
      NoneAbove(t, ticks);
    } else {
      var t1 := AgeLevel(t, l, ticks);
      LevelResult(t, l, ticks);
      LevelProcs(t, l, ticks);
      PassResult(t1, l + 1, ticks);
      PassStep(t, t1, AgeFrom(t1, l + 1, ticks), l, ticks);
    }
  }

  lemma NoneAbove(t: Table, ticks: int)
    requires WfTable(t)
    ensures AgedAt(t, LEVELS, ticks) == []
    ensures forall p :: 0 <= p < NPROC && t.proc[p].queue >= LEVELS ==> AgedAt(t, t.proc[p].queue, ticks) == []
  {}

  lemma PassStep(t: Table, t1: Table, t2: Table, l: nat, ticks: int)
    requires WfTable(t) && WfTable(t1) && WfTable(t2) && 1 <= l < LEVELS
    requires Moved(t, t1, l, AgedAt(t, l, ticks)) && PassedFrom(t1, t2, l + 1, ticks)
    requires forall m :: l < m < LEVELS ==> AgedAt(t1, m, ticks) == AgedAt(t, m, ticks)
    requires forall p :: p in AgedAt(t, l, ticks) ==> p < NPROC && t.proc[p].queue == l
    requires forall p :: 0 <= p < NPROC ==> t.proc[p].queue < LEVELS
    ensures PassedFrom(t, t2, l, ticks)
  {
    hide Entries, AgedAt;
    NoneAbove(t, ticks);
    NoneAbove(t1, ticks);
    assert AgedAt(t1, l + 1, ticks) == AgedAt(t, l + 1, ticks);
  }

  lemma ConsistentLevels(t: Table)
    requires Consistent(t, {})
    ensures LevelsOk(t, 1) && forall l :: 0 <= l < LEVELS ==> AllRunnable(t.proc, Entries(t, l))
  {
    hide Entries;
    forall l | 0 <= l < LEVELS ensures AtLevel(t, l, Entries(t, l)) && AllRunnable(t.proc, Entries(t, l)) {
      assert RingOk(t, l, {});
    }
  }

  /** The aged entries come first in every ring that the pass scans. */
  ghost predicate PrefixShaped(t: Table, ticks: int)
    requires WfTable(t)
  {
    forall l :: 1 <= l < LEVELS ==> AgedAt(t, l, ticks) <= Entries(t, l)
  }

  lemma AgedAtMembers(t: Table, l: nat, ticks: int)
    requires Consistent(t, {}) && l < LEVELS
    ensures Distinct(AgedAt(t, l, ticks)) && |AgedAt(t, l, ticks)| <= |Entries(t, l)|
    ensures forall p :: p in AgedAt(t, l, ticks) <==> p in Entries(t, l) && p < NPROC && IsAged(t.proc[p], ticks)
    ensures forall p :: p in Entries(t, l) ==> p < NPROC && t.proc[p].state == RUNNABLE && t.proc[p].queue == l
  {
    hide Entries;
    assert RingOk(t, l, {});
    AgedMembers(t.proc, Entries(t, l), ticks);
  }

  /** With aged prefixes each ring ends as its unaged entries followed by the aged ones from below. */
  lemma PrefixRing(t: Table, t': Table, l: nat, ticks: int)
    requires Consistent(t, {}) && WfLevels(t') && PassedFrom(t, t', 1, ticks) && PrefixShaped(t, ticks) && l < LEVELS
    ensures RingOk(t', l, {})
  {
    hide Entries, AgedAt;
    var es, a := Entries(t, l), if l == 0 then [] else AgedAt(t, l, ticks);
    var b := AgedAt(t, l + 1, ticks);
    NoneAbove(t, ticks);
    AgedAtMembers(t, l, ticks);
    if l + 1 < LEVELS { AgedAtMembers(t, l + 1, ticks); }
    assert RingOk(t, l, {});
    assert Entries(t', l) == es[|a|..] + b;
    forall i | |a| <= i < |es| ensures t'.proc[es[i]] == t.proc[es[i]] {
      assert es[i] !in a;
    }
    var r := Entries(t', l);
    forall i | 0 <= i < |r| ensures r[i] < NPROC && t'.proc[r[i]].state == RUNNABLE && t'.proc[r[i]].queue == l {
      if i < |es| - |a| {
        assert r[i] == es[|a| + i];
      } else {
        assert r[i] in b;
      }
    }
    DistinctJoin(es, |a|, b);
  }

  lemma DistinctJoin(es: seq<nat>, n: nat, b: seq<nat>)
    requires Distinct(es) && Distinct(b) && n <= |es| && forall p :: p in es ==> p !in b
    ensures Distinct(es[n..] + b)
  {
    var r := es[n..] + b;
    forall i, j | 0 <= i < j < |r| ensures r[i] != r[j] {
      if i < |es| - n <= j { assert r[i] == es[n + i] && r[j] in b && r[i] in es; }
    }
  }

  lemma PrefixConsistent(t: Table, t': Table, ticks: int)
    requires Consistent(t, {}) && WfLevels(t') && PassedFrom(t, t', 1, ticks) && PrefixShaped(t, ticks)
    ensures Consistent(t', {})
  {
    hide Entries, AgedAt;
    forall l | 0 <= l < LEVELS ensures RingOk(t', l, {}) { PrefixRing(t, t', l, ticks); }
    NoneAbove(t, ticks);
    forall p | 0 <= p < NPROC && t'.proc[p].state == RUNNABLE ensures p in Entries(t', t'.proc[p].queue) {
      var l := t.proc[p].queue;
      assert p in Entries(t, l);
      AgedAtMembers(t, l, ticks);
      if l == 0 {
        assert Entries(t', 0) == Entries(t, 0) + AgedAt(t, 1, ticks);
      } else if p in AgedAt(t, l, ticks) {
        var m := l - 1;
        assert t'.proc[p].queue == m && p in AgedAt(t, m + 1, ticks);
        assert m >= 1 ==> Entries(t', m) == Entries(t, m)[|AgedAt(t, m, ticks)|..] + AgedAt(t, m + 1, ticks);
      } else {
        var es, n := Entries(t, l), |AgedAt(t, l, ticks)|;
        var i :| 0 <= i < |es| && es[i] == p;
        assert AgedAt(t, l, ticks) == es[..n];
        assert i >= n;
        assert p == es[n..][i - n];
        assert Entries(t', l) == es[n..] + AgedAt(t, l + 1, ticks);
      }
    }
  }

  /** Where the aged entries are not a prefix, an entry that is not aged is popped and lost. */
  lemma NonPrefixLoses(t: Table, t': Table, ticks: int, l: nat)
    requires Consistent(t, {}) && WfLevels(t') && PassedFrom(t, t', 1, ticks)
    requires 1 <= l < LEVELS && !(AgedAt(t, l, ticks) <= Entries(t, l))
    ensures !Consistent(t', {})
  {
    hide Entries;
    assert RingOk(t, l, {});
    var es, a := Entries(t, l), AgedAt(t, l, ticks);
    var i := NotPrefix(t.proc, es, ticks);
    var p := es[i];
    NoneAbove(t, ticks);
    AgedAtMembers(t, l, ticks);
    if l + 1 < LEVELS { AgedAtMembers(t, l + 1, ticks); }
    assert t'.proc[p] == t.proc[p];
    assert Entries(t', l) == es[|a|..] + AgedAt(t, l + 1, ticks);
    assert p !in Entries(t', l);
  }

  /** Where a ring would come to hold all NPROC processes it overflows, and they are all lost. */
  lemma OverfullLoses(t: Table, ticks: int, l: nat)
    requires Consistent(t, {}) && 1 <= l < LEVELS && Gathered(t, 1, l, ticks) >= NPROC
    ensures LevelsOk(t, 1) && !Consistent(AgeFrom(t, 1, ticks), {})
  {
    hide Entries, AgedAt;
    ConsistentLevels(t);
    PassProcs(t, 1, ticks);
    var t' := AgeFrom(t, 1, ticks);
    var a, b := Entries(t, l - 1), AgedAt(t, l, ticks);
    AgedAtMembers(t, l, ticks);
    AgedAtMembers(t, l - 1, ticks);
    assert RingOk(t, l - 1, {});
    var all := a + b;
    forall i, j | 0 <= i < j < |all| ensures all[i] != all[j] {
      if i < |a| <= j { assert all[i] in a && all[j] in b; }
    }
    forall i | 0 <= i < |all| ensures all[i] < NPROC { assert all[i] in a || all[i] in b; }
    Covers(all, NPROC);
    forall p | 0 <= p < NPROC ensures t'.proc[p].state == RUNNABLE && t'.proc[p].queue == l - 1 {
      assert p in all;
    }
    assert FullLevel(t', l - 1);
    if Consistent(t', {}) { ConsistentNotFull(t'); }
  }

  /** While some process is not RUNNABLE every ring has room. */
  lemma IdleGivesRoom(t: Table, ticks: int)
    requires Consistent(t, {}) && SomeIdle(t.proc)
    ensures RoomFrom(t, 1, ticks)
  {
    hide Entries, AgedAt;
    forall m | 1 <= m < LEVELS ensures Gathered(t, 1, m, ticks) < NPROC {
      var a, b := Entries(t, m - 1), AgedAt(t, m, ticks);
      AgedAtMembers(t, m, ticks);
      AgedAtMembers(t, m - 1, ticks);
      assert RingOk(t, m - 1, {});
      forall i | 0 <= i < |b| ensures b[i] < NPROC && t.proc[b[i]].state == RUNNABLE { assert b[i] in b; }
      FitsRing(t.proc, a, b);
    }
  }

  /**
    Ageing conserves the run queues exactly when the aged entries of every scanned ring come first
    and no ring overflows; then the pass moves just those, in order, to the tail of the next ring up.
   */
  lemma AgeingExactly(t: Table, ticks: int)
    requires Consistent(t, {})
    ensures LevelsOk(t, 1) && WfTable(AgeFrom(t, 1, ticks))
    ensures RoomFrom(t, 1, ticks) ==> PassedFrom(t, AgeFrom(t, 1, ticks), 1, ticks)
    ensures Consistent(AgeFrom(t, 1, ticks), {}) <==> PrefixShaped(t, ticks) && RoomFrom(t, 1, ticks)
  {
    hide Entries, AgedAt, PassedFrom, Consistent, Gathered, RaisedFrom;
    ConsistentLevels(t);
    PassProcs(t, 1, ticks);
    var t' := AgeFrom(t, 1, ticks);
    if !RoomFrom(t, 1, ticks) {
      var l :| 1 <= l < LEVELS && Gathered(t, 1, l, ticks) >= NPROC;
      OverfullLoses(t, ticks, l);
    } else {
      PassResult(t, 1, ticks);
      if PrefixShaped(t, ticks) {
        PrefixConsistent(t, t', ticks);
      } else {
        var l :| 1 <= l < LEVELS && !(AgedAt(t, l, ticks) <= Entries(t, l));
        NonPrefixLoses(t, t', ticks, l);
      }
    }
  }

  /** No process rises by more than one level, none falls, and those that rise are the aged ones. */
  lemma AgeingRaisesByOne(t: Table, ticks: int, p: nat)
    requires Consistent(t, {}) && p < NPROC
    ensures LevelsOk(t, 1)
    ensures var q, q' := t.proc[p], AgeFrom(t, 1, ticks).proc[p];
            && (q' == q || (q.queue >= 1 && q' == q.(queue := q.queue - 1)))
            && (q' != q <==> q.state == RUNNABLE && q.queue >= 1 && ticks - q.lastExecuted > AGEING)
  {
    hide Entries, AgedAt;
    ConsistentLevels(t);
    PassProcs(t, 1, ticks);
    if t.proc[p].queue >= 1 { AgedAtMembers(t, t.proc[p].queue, ticks); }
    assert t.proc[p].state == RUNNABLE ==> p in Entries(t, t.proc[p].queue);
  }
}
