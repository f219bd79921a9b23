/**
  The logging protocol as a state machine: any number of concurrent operations between
  begin_op and end_op, a cache that may load and evict clean blocks at any time, group
  commit one block write at a time, and a crash at any moment, also during recovery.
 */
module LogProtocol {
  import opened Blocks
  import opened Finite
  import opened RedoLog

  datatype Phase =
    | Running               // operations may be outstanding; committing == 0
    | Logging(t: nat)       // write_log has copied t blocks
    | Installing(t: nat)    // the header is on disk; install_trans has copied t blocks
    | Booting               // memory was lost; recovery has not read the header yet
    | Reinstalling(t: nat)  // recovery has copied t blocks

  /** An outstanding operation and the number of blocks it has appended to the log. */
  datatype Op = Op(id: nat, used: nat)

  /** Operation id gave block b the contents data. */
  datatype Event = Event(id: nat, b: nat, data: Block)

  datatype Cached = Cached(data: Block, dirty: bool)

  datatype State = State(
    disk: Disk, cache: map<nat, Cached>, lh: seq<nat>, ops: seq<Op>, phase: Phase,
    // history: all updates so far, how many of them are durable, the next operation id,
    // and the first id not covered by the durable updates
    events: seq<Event>, durable: nat, next: nat, bound: nat)

  datatype Action =
    | Begin | Update(op: nat, b: nat, data: Block) | End(op: nat)
    | Load(b: nat) | Evict(b: nat)
    | CopyToLog | WriteHead | Install | ClearHead
    | Crash | ReadHead | Reinstall | FinishRecovery

  function View(s: State, b: nat): (x: Block)
    requires b < |s.disk|
  {
    if b in s.cache then s.cache[b].data else s.disk[b]
  }

  /** log_write's panic test. */
  predicate TooBig(g: Geometry, s: State)
  {
    |s.lh| >= LOGSIZE || |s.lh| >= g.size - 1
  }

  predicate Enabled(g: Geometry, s: State, a: Action)
  {
    match a
    case Begin => s.phase.Running? && |s.lh| + (|s.ops| + 1) * MAXOPBLOCKS <= LOGSIZE
    case Update(op, b, data) =>
      && s.phase.Running? && op < |s.ops| && Home(g, s.disk, b)
      && (b in s.lh || s.ops[op].used < MAXOPBLOCKS)
      && !TooBig(g, s)
    case End(op) => s.phase.Running? && op < |s.ops|
    case Load(b) => !s.phase.Booting? && b < |s.disk| && b !in s.cache
    case Evict(b) => b in s.cache && !s.cache[b].dirty
    case CopyToLog => s.phase.Logging? && s.phase.t < |s.lh| && s.lh[s.phase.t] < |s.disk|
        && g.start + 1 + s.phase.t < |s.disk|
    case WriteHead => s.phase.Logging? && s.phase.t == |s.lh| && g.start < |s.disk| && WfHeader(g, s.disk, s.lh)
    case Install => s.phase.Installing? && s.phase.t < |s.lh| && s.lh[s.phase.t] < |s.disk|
        && g.start + 1 + s.phase.t < |s.disk|
    case ClearHead => s.phase.Installing? && s.phase.t == |s.lh| && g.start < |s.disk|
    case Crash => s.durable <= |s.events|
    case ReadHead => s.phase.Booting? && WfDisk(g, s.disk)
    case Reinstall => s.phase.Reinstalling? && s.phase.t < |s.lh| && s.lh[s.phase.t] < |s.disk|
        && g.start + 1 + s.phase.t < |s.disk|
    case FinishRecovery => s.phase.Reinstalling? && s.phase.t == |s.lh| && g.start < |s.disk|
  }

  /** bwrite of a held buffer: the block reaches the disk and its buffer is clean. */
  function Store(s: State, b: nat, x: Block): (s': State)
    requires b < |s.disk|
  {
    s.(disk := s.disk[b := x], cache := s.cache[b := Cached(x, false)])
  }

  function Do(g: Geometry, s: State, a: Action): (s': State)
    requires Enabled(g, s, a)
  {
    match a
    case Begin => s.(ops := s.ops + [Op(s.next, 0)], next := s.next + 1)
    case Update(op, b, data) =>
      var isNew := b !in s.lh;
      s.(cache := s.cache[b := Cached(data, true)],
         lh := if isNew then s.lh + [b] else s.lh,
         ops := s.ops[op := Op(s.ops[op].id, s.ops[op].used + if isNew then 1 else 0)],
         events := s.events + [Event(s.ops[op].id, b, data)])
    case End(op) =>
      var ops := s.ops[..op] + s.ops[op + 1..];
      s.(ops := ops, phase := if ops == [] && s.lh != [] then Logging(0) else Running)
    case Load(b) => s.(cache := s.cache[b := Cached(s.disk[b], false)])
    case Evict(b) => s.(cache := s.cache - {b})
    case CopyToLog => Store(s, g.start + 1 + s.phase.t, View(s, s.lh[s.phase.t])).(phase := Logging(s.phase.t + 1))
    case WriteHead =>
      Store(s, g.start, Encode(View(s, g.start), s.lh)).(phase := Installing(0), durable := |s.events|, bound := s.next)
    case Install => Store(s, s.lh[s.phase.t], View(s, g.start + 1 + s.phase.t)).(phase := Installing(s.phase.t + 1))
    case ClearHead => Store(s, g.start, Encode(View(s, g.start), [])).(lh := [], phase := Running)
    case Crash =>
      s.(cache := map[], lh := [], ops := [], phase := Booting, events := s.events[..s.durable], bound := s.next)
    case ReadHead => s.(lh := HeadBlocks(s.disk[g.start]), phase := Reinstalling(0))
    case Reinstall => Store(s, s.lh[s.phase.t], View(s, g.start + 1 + s.phase.t)).(phase := Reinstalling(s.phase.t + 1))
    case FinishRecovery => Store(s, g.start, Encode(View(s, g.start), [])).(lh := [], phase := Running)
  }

  function Init(d: Disk): (s: State)
  {
    State(d, map[], [], [], Booting, [], 0, 0, 0)
  }

  // ---- runs ----

  predicate ValidRun(g: Geometry, s: State, acts: seq<Action>)
    decreases |acts|, 0
  {
    acts == [] ||
    var n := |acts| - 1;
    ValidRun(g, s, acts[..n]) && Enabled(g, After(g, s, acts[..n]), acts[n])
  }

  function After(g: Geometry, s: State, acts: seq<Action>): (s': State)
    requires ValidRun(g, s, acts)
    decreases |acts|, 1
  {
    if acts == [] then s else
      var n := |acts| - 1;
      Do(g, After(g, s, acts[..n]), acts[n])
  }

  // ---- the invariant ----

  /** Contents of block b after the updates es on top of base. */
  function Hist(base: Disk, es: seq<Event>, b: nat): (x: Block)
    requires b < |base|
  {
    if es == [] then base[b] else
      var e := es[|es| - 1];
      if e.b == b then e.data else Hist(base, es[..|es| - 1], b)
  }

  /** The log space not yet used by the outstanding operations. */
  function Unused(ops: seq<Op>): (n: int)
  {
    if ops == [] then 0 else Unused(ops[..|ops| - 1]) + MAXOPBLOCKS - ops[|ops| - 1].used
  }

  /** Which operations the durable updates come from. */
  ghost predicate IdsOk(s: State)
  {
    && s.durable <= |s.events| && s.bound <= s.next
    && (forall i :: 0 <= i < s.durable ==> s.events[i].id < s.bound)
    && (forall i :: s.durable <= i < |s.events| ==> s.bound <= s.events[i].id < s.next)
    && (forall i :: 0 <= i < |s.ops| ==> s.bound <= s.ops[i].id < s.next)
    && (!s.phase.Running? ==> s.ops == [])
    && (!s.phase.Running? && !s.phase.Logging? ==> s.durable == |s.events|)
  }

  /** How much log space is promised. */
  ghost predicate SpaceOk(s: State)
  {
    && (forall i :: 0 <= i < |s.ops| ==> s.ops[i].used <= MAXOPBLOCKS)
    && |s.lh| + Unused(s.ops) <= LOGSIZE
  }

  ghost predicate OpsOk(s: State)
  {
    IdsOk(s) && SpaceOk(s)
  }

  ghost predicate CacheOk(s: State)
  {
    forall b :: b in s.cache ==>
      && b < |s.disk|
      && (s.cache[b].dirty ==> b in s.lh && !s.phase.Reinstalling?)
      && (!s.cache[b].dirty ==> s.cache[b].data == s.disk[b])
  }

  ghost predicate Pinned(s: State, b: nat)
  {
    b in s.cache && s.cache[b].dirty
  }

  /** While operations run and while commit fills the log, the homes on disk are the durable ones. */
  ghost predicate BeforeHead(g: Geometry, base: Disk, s: State, t: nat)
    requires WfHeader(g, s.disk, s.lh) && |s.disk| == |base| && s.durable <= |s.events|
  {
    && Word(s.disk[g.start], 0) == 0
    && t <= |s.lh|
    && (forall i :: 0 <= i < |s.lh| ==> Pinned(s, s.lh[i]))
    && (forall i :: 0 <= i < t ==> s.disk[g.start + 1 + i] == s.cache[s.lh[i]].data)
    && (forall b :: Home(g, s.disk, b) ==> s.disk[b] == Hist(base, s.events[..s.durable], b))
    && (forall b :: Home(g, s.disk, b) ==> View(s, b) == Hist(base, s.events, b))
  }

  /** Once the header is written the log holds the new contents and t homes are installed. */
  ghost predicate AfterHead(g: Geometry, base: Disk, s: State, t: nat)
    requires WfHeader(g, s.disk, s.lh) && |s.disk| == |base|
  {
    && Word(s.disk[g.start], 0) <= LOGSIZE && HeadBlocks(s.disk[g.start]) == s.lh
    && t <= |s.lh|
    && (forall i :: 0 <= i < |s.lh| ==> s.disk[g.start + 1 + i] == Hist(base, s.events, s.lh[i]))
    && (forall i :: 0 <= i < t ==> s.disk[s.lh[i]] == Hist(base, s.events, s.lh[i]) && !Pinned(s, s.lh[i]))
    && (forall b :: Home(g, s.disk, b) && b !in s.lh ==> s.disk[b] == Hist(base, s.events, b))
  }

  ghost predicate Inv(g: Geometry, base: Disk, s: State)
  {
    && |s.disk| == |base| && WfHeader(g, s.disk, s.lh)
    && OpsOk(s) && CacheOk(s)
    && match s.phase
       case Running => BeforeHead(g, base, s, 0)
       case Logging(t) => BeforeHead(g, base, s, t)
       case Installing(t) =>
         && AfterHead(g, base, s, t)
         && (forall i :: t <= i < |s.lh| ==>
              Pinned(s, s.lh[i]) && s.cache[s.lh[i]].data == Hist(base, s.events, s.lh[i]))
       case Reinstalling(t) => AfterHead(g, base, s, t)
       case Booting =>
         && s.cache == map[] && WfDisk(g, s.disk)
         && forall b :: Home(g, s.disk, b) ==> Durable(g, s.disk, b) == Hist(base, s.events, b)
  }

  // ---- every action keeps the invariant ----

  lemma {:induction false} UnusedUpdate(ops: seq<Op>, i: nat, op: Op)
    requires i < |ops|
    ensures Unused(ops[i := op]) == Unused(ops) + ops[i].used - op.used
  {
    var n := |ops| - 1;
    if i < n {
      UnusedUpdate(ops[..n], i, op);
      assert ops[i := op][..n] == ops[..n][i := op];
    } else {
      assert ops[i := op][..n] == ops[..n];
    }
  }

  lemma {:induction false} UnusedRemove(ops: seq<Op>, i: nat)
    requires i < |ops|
    ensures Unused(ops[..i] + ops[i + 1..]) == Unused(ops) - MAXOPBLOCKS + ops[i].used
  {
    var n := |ops| - 1;
    var r := ops[..i] + ops[i + 1..];
    if i < n {
      UnusedRemove(ops[..n], i);
      assert r[..|r| - 1] == ops[..n][..i] + ops[..n][i + 1..];
    } else {
      assert r == ops[..n];
    }
  }

  lemma {:induction false} UnusedBounds(ops: seq<Op>)
    requires forall i :: 0 <= i < |ops| ==> ops[i].used <= MAXOPBLOCKS
    ensures 0 <= Unused(ops) <= |ops| * MAXOPBLOCKS
    ensures forall i :: 0 <= i < |ops| ==> MAXOPBLOCKS - ops[i].used <= Unused(ops)
  {
    if ops != [] { UnusedBounds(ops[..|ops| - 1]); }
  }

  lemma BeginKeepsOps(g: Geometry, s: State)
    requires OpsOk(s) && Enabled(g, s, Begin)
    ensures OpsOk(Do(g, s, Begin))
  {
    UnusedBounds(s.ops);
    var s' := Do(g, s, Begin);
    assert s'.ops[..|s'.ops| - 1] == s.ops;
  }

  lemma BeginKeeps(g: Geometry, base: Disk, s: State)
    requires Inv(g, base, s) && Enabled(g, s, Begin)
    ensures Inv(g, base, Do(g, s, Begin))
  {
    hide Word, Encode, Hist, Home, IdsOk, SpaceOk;
    BeginKeepsOps(g, s);
    DurableLength(s);
  }

  lemma HistAppend(base: Disk, es: seq<Event>, e: Event, b: nat)
    requires b < |base|
    ensures Hist(base, es + [e], b) == if e.b == b then e.data else Hist(base, es, b)
  {
    assert (es + [e])[..|es|] == es;
  }

  lemma UpdateKeepsOps(g: Geometry, s: State, op: nat, b: nat, data: Block)
    requires OpsOk(s) && Enabled(g, s, Update(op, b, data))
    ensures OpsOk(Do(g, s, Update(op, b, data)))
  {
    hide Unused;
    UnusedUpdate(s.ops, op, Do(g, s, Update(op, b, data)).ops[op]);
  }

  lemma UpdateKeeps(g: Geometry, base: Disk, s: State, op: nat, b: nat, data: Block)
    requires Inv(g, base, s) && Enabled(g, s, Update(op, b, data))
    ensures Inv(g, base, Do(g, s, Update(op, b, data)))
  {
    hide Word, Encode, Hist, IdsOk, SpaceOk;
    var s' := Do(g, s, Update(op, b, data));
    UpdateKeepsOps(g, s, op, b, data);
    DurableLength(s);
    assert s'.events[..s.durable] == s.events[..s.durable];
    forall c | Home(g, s.disk, c) ensures View(s', c) == Hist(base, s'.events, c) {
      HistAppend(base, s.events, s'.events[|s.events|], c);
    }
  }

  lemma EndKeepsOps(g: Geometry, s: State, op: nat)
    requires OpsOk(s) && Enabled(g, s, End(op))
    ensures OpsOk(Do(g, s, End(op)))
  {
    hide Unused;
    UnusedRemove(s.ops, op);
    var s' := Do(g, s, End(op));
    assert forall i :: 0 <= i < |s'.ops| ==> s'.ops[i] == s.ops[if i < op then i else i + 1];
  }

  lemma EndKeeps(g: Geometry, base: Disk, s: State, op: nat)
    requires Inv(g, base, s) && Enabled(g, s, End(op))
    ensures Inv(g, base, Do(g, s, End(op)))
    ensures var s' := Do(g, s, End(op));
            s'.lh == s.lh && s'.events == s.events && (s'.phase.Logging? <==> |s.ops| == 1 && s.lh != [])
  {
    hide Word, Encode, Hist, Home, IdsOk, SpaceOk;
    EndKeepsOps(g, s, op);
    DurableLength(s);
    var s' := Do(g, s, End(op));
    assert s' == s.(ops := s'.ops, phase := s'.phase);
  }

  /** A change of clean cached copies alone. */
  lemma CacheChange(g: Geometry, base: Disk, s: State, cache: map<nat, Cached>)
    requires Inv(g, base, s) && !s.phase.Booting?
    requires var s' := s.(cache := cache);
             && CacheOk(s')
             && (forall b :: 0 <= b < |s.disk| ==> View(s', b) == View(s, b) && Pinned(s', b) == Pinned(s, b))
    ensures Inv(g, base, s.(cache := cache))
  {
    hide Word, Encode, Hist, Unused, OpsOk;
    var s' := s.(cache := cache);
    assert OpsOk(s') by { SameOps(s, s'); }
    forall i | 0 <= i < |s.lh| ensures Pinned(s', s.lh[i]) == Pinned(s, s.lh[i])
      && View(s', s.lh[i]) == View(s, s.lh[i])
    {
      assert Home(g, s.disk, s.lh[i]);
    }
  }

  lemma SameOps(s: State, s': State)
    requires OpsOk(s) && s' == s.(cache := s'.cache)
    ensures OpsOk(s')
  {}

  lemma LoadEvictKeeps(g: Geometry, base: Disk, s: State, a: Action)
    requires Inv(g, base, s) && Enabled(g, s, a) && (a.Load? || a.Evict?)
    ensures Inv(g, base, Do(g, s, a))
  {
    hide Word, Encode, Hist, Unused, OpsOk, BeforeHead, AfterHead, WfDisk;
    CacheChange(g, base, s, Do(g, s, a).cache);
  }

  lemma StoreCache(s: State, b: nat, x: Block, p: Phase)
    requires CacheOk(s) && b < |s.disk| && s.phase.Reinstalling? == p.Reinstalling?
    ensures CacheOk(Store(s, b, x).(phase := p))
  {}

  lemma StoreOps(s: State, b: nat, x: Block, p: Phase)
    requires OpsOk(s) && b < |s.disk|
    requires (s.phase.Logging? && p.Logging?) || (s.phase.Installing? && p.Installing?)
             || (s.phase.Reinstalling? && p.Reinstalling?)
    ensures OpsOk(Store(s, b, x).(phase := p))
  {
    hide Unused;
  }

  /** Filling one more log block changes neither the homes nor what the cache shows of them. */
  lemma CopyKeepsBeforeHead(g: Geometry, base: Disk, s: State, t: nat, p: Phase)
    requires |s.disk| == |base| && WfHeader(g, s.disk, s.lh) && s.durable <= |s.events|
    requires BeforeHead(g, base, s, t) && t < |s.lh|
    ensures var s' := Store(s, g.start + 1 + t, s.cache[s.lh[t]].data).(phase := p);
            BeforeHead(g, base, s', t + 1)
  {
    hide Word, Encode, Hist;
    var c := g.start + 1 + t;
    var s' := Store(s, c, s.cache[s.lh[t]].data).(phase := p);
    assert !Home(g, s.disk, c);
    forall i | 0 <= i < |s.lh| ensures s'.cache[s.lh[i]] == s.cache[s.lh[i]] {
      assert Home(g, s.disk, s.lh[i]);
    }
    assert forall b :: Home(g, s'.disk, b) ==> Home(g, s.disk, b) && View(s', b) == View(s, b);
  }

  lemma CopyToLogKeeps(g: Geometry, base: Disk, s: State)
    requires Inv(g, base, s) && Enabled(g, s, CopyToLog)
    ensures Inv(g, base, Do(g, s, CopyToLog))
  {
    hide Word, Encode, Hist, CacheOk, OpsOk, BeforeHead;
    var t := s.phase.t;
    var c, x := g.start + 1 + t, View(s, s.lh[t]);
    DurableLength(s);
    LoggedPinned(g, base, s, t);
    StoreCache(s, c, x, Logging(t + 1));
    StoreOps(s, c, x, Logging(t + 1));
    CopyKeepsBeforeHead(g, base, s, t, Logging(t + 1));
  }

  lemma LoggedPinned(g: Geometry, base: Disk, s: State, t: nat)
    requires |s.disk| == |base| && WfHeader(g, s.disk, s.lh) && s.durable <= |s.events|
    requires BeforeHead(g, base, s, t) && t < |s.lh|
    ensures s.lh[t] in s.cache
  {
    assert Pinned(s, s.lh[t]);
  }

  lemma DurableLength(s: State)
    requires OpsOk(s)
    ensures s.durable <= |s.events|
  {}

  lemma WriteHeadKeeps(g: Geometry, base: Disk, s: State)
    requires Inv(g, base, s) && Enabled(g, s, WriteHead)
    ensures Inv(g, base, Do(g, s, WriteHead))
  {
    hide Word, Encode, Hist, SpaceOk, IdsOk, CacheOk;
    var s' := Do(g, s, WriteHead);
    WriteHeadKeepsOps(g, s);
    assert CacheOk(s') by {
      StoreCache(s, g.start, s'.disk[g.start], Installing(0));
      SameCache(Store(s, g.start, s'.disk[g.start]).(phase := Installing(0)), s');
    }
    assert !Home(g, s.disk, g.start);
    forall i | 0 <= i < |s.lh| ensures s.cache[s.lh[i]].data == Hist(base, s.events, s.lh[i]) {
      assert Home(g, s.disk, s.lh[i]);
      assert View(s, s.lh[i]) == Hist(base, s.events, s.lh[i]);
    }
    forall b | Home(g, s.disk, b) && b !in s.lh ensures s.disk[b] == Hist(base, s.events, b) {
      NotLoggedIsClean(s, b);
    }
  }

  lemma NotLoggedIsClean(s: State, b: nat)
    requires CacheOk(s) && b < |s.disk| && b !in s.lh
    ensures View(s, b) == s.disk[b]
  {}

  lemma SameCache(s: State, s': State)
    requires CacheOk(s) && s'.disk == s.disk && s'.cache == s.cache && s'.lh == s.lh && s'.phase == s.phase
    ensures CacheOk(s')
  {}

  lemma WriteHeadKeepsOps(g: Geometry, s: State)
    requires OpsOk(s) && Enabled(g, s, WriteHead)
    ensures OpsOk(Do(g, s, WriteHead))
  {
    hide Word, Encode, Unused;
  }

  /** Copying log block t home, with a cache that agrees with the disk on log blocks. */
  lemma InstallKeepsAfterHead(g: Geometry, base: Disk, s: State, t: nat, p: Phase)
    requires |s.disk| == |base| && WfHeader(g, s.disk, s.lh) && AfterHead(g, base, s, t) && t < |s.lh|
    ensures var s' := Store(s, s.lh[t], s.disk[g.start + 1 + t]).(phase := p);
            AfterHead(g, base, s', t + 1)
  {
    hide Word, Encode, Hist;
    assert Home(g, s.disk, s.lh[t]) && !Home(g, s.disk, g.start);
    assert forall c :: g.start <= c < g.start + g.size ==> !Home(g, s.disk, c);
  }

  lemma LogBlocksClean(g: Geometry, s: State, i: nat)
    requires WfHeader(g, s.disk, s.lh) && CacheOk(s) && i < g.size
    ensures View(s, g.start + i) == s.disk[g.start + i]
  {
    assert !Home(g, s.disk, g.start + i);
  }

  lemma InstallKeeps(g: Geometry, base: Disk, s: State)
    requires Inv(g, base, s) && Enabled(g, s, Install)
    ensures Inv(g, base, Do(g, s, Install))
  {
    hide Word, Encode, Hist, CacheOk, OpsOk, AfterHead;
    var t := s.phase.t;
    LogBlocksClean(g, s, 1 + t);
    var x := s.disk[g.start + 1 + t];
    StoreCache(s, s.lh[t], x, Installing(t + 1));
    StoreOps(s, s.lh[t], x, Installing(t + 1));
    InstallKeepsAfterHead(g, base, s, t, Installing(t + 1));
  }

  lemma ReinstallKeeps(g: Geometry, base: Disk, s: State)
    requires Inv(g, base, s) && Enabled(g, s, Reinstall)
    ensures Inv(g, base, Do(g, s, Reinstall))
  {
    hide Word, Encode, Hist, CacheOk, OpsOk, AfterHead;
    var t := s.phase.t;
    LogBlocksClean(g, s, 1 + t);
    var x := s.disk[g.start + 1 + t];
    StoreCache(s, s.lh[t], x, Reinstalling(t + 1));
    StoreOps(s, s.lh[t], x, Reinstalling(t + 1));
    InstallKeepsAfterHead(g, base, s, t, Reinstalling(t + 1));
  }

  lemma ClearKeepsOps(g: Geometry, s: State, a: Action)
    requires OpsOk(s) && Enabled(g, s, a) && (a.ClearHead? || a.FinishRecovery?)
    ensures OpsOk(Do(g, s, a))
  {
    hide Word, Encode;
  }

  /** Clearing the header once everything is installed, in commit and in recovery. */
  lemma ClearKeeps(g: Geometry, base: Disk, s: State, a: Action)
    requires Inv(g, base, s) && Enabled(g, s, a) && (a.ClearHead? || a.FinishRecovery?)
    ensures Inv(g, base, Do(g, s, a))
  {
    hide Word, Encode, Hist, SpaceOk, Unused;
    ClearKeepsOps(g, s, a);
    assert !Home(g, s.disk, g.start);
    assert s.events[..s.durable] == s.events;
  }

  lemma ReadHeadKeeps(g: Geometry, base: Disk, s: State)
    requires Inv(g, base, s) && Enabled(g, s, ReadHead)
    ensures Inv(g, base, Do(g, s, ReadHead))
  {
    hide Word, Encode, Hist;
    var lh := HeadBlocks(s.disk[g.start]);
    forall i | 0 <= i < |lh| ensures s.disk[g.start + 1 + i] == Hist(base, s.events, lh[i]) {
      assert Home(g, s.disk, lh[i]);
      assert Durable(g, s.disk, lh[i]) == s.disk[g.start + 1 + i];
    }
  }

  /** In every state the durable contents are the durable updates. */
  lemma InvDurable(g: Geometry, base: Disk, s: State)
    requires Inv(g, base, s)
    ensures WfDisk(g, s.disk)
    ensures s.durable <= |s.events|
    ensures forall b :: Home(g, s.disk, b) ==> Durable(g, s.disk, b) == Hist(base, s.events[..s.durable], b)
  {
    hide Word, Encode, Hist, CacheOk, Unused;
    if s.durable == |s.events| { assert s.events[..s.durable] == s.events; }
  }

  lemma CrashKeeps(g: Geometry, base: Disk, s: State)
    requires Inv(g, base, s) && Enabled(g, s, Crash)
    ensures Inv(g, base, Do(g, s, Crash))
  {
    hide Word, Encode, Hist, BeforeHead, AfterHead, Durable;
    InvDurable(g, base, s);
  }

  lemma StepKeepsInv(g: Geometry, base: Disk, s: State, a: Action)
    requires Inv(g, base, s) && Enabled(g, s, a)
    ensures Inv(g, base, Do(g, s, a))
  {
    hide *;
    match a
    case Begin => BeginKeeps(g, base, s);
    case Update(op, b, data) => UpdateKeeps(g, base, s, op, b, data);
    case End(op) => EndKeeps(g, base, s, op);
    case Load(b) => LoadEvictKeeps(g, base, s, a);
    case Evict(b) => LoadEvictKeeps(g, base, s, a);
    case CopyToLog => CopyToLogKeeps(g, base, s);
    case WriteHead => WriteHeadKeeps(g, base, s);
    case Install => InstallKeeps(g, base, s);
    case ClearHead => ClearKeeps(g, base, s, a);
    case Crash => CrashKeeps(g, base, s);
    case ReadHead => ReadHeadKeeps(g, base, s);
    case Reinstall => ReinstallKeeps(g, base, s);
    case FinishRecovery => ClearKeeps(g, base, s, a);
  }

  // ---- what holds after every run ----

  lemma {:induction false} RunKeepsInv(g: Geometry, d: Disk, acts: seq<Action>)
    requires WfDisk(g, d) && ValidRun(g, Init(d), acts)
    ensures Inv(g, Recover(g, d), After(g, Init(d), acts))
  {
    hide Inv, Enabled, Do, Recover, WfDisk;
    if acts == [] {
      InitInv(g, d);
    } else {
      var n := |acts| - 1;
      RunKeepsInv(g, d, acts[..n]);
      StepKeepsInv(g, Recover(g, d), After(g, Init(d), acts[..n]), acts[n]);
    }
  }

  lemma InitInv(g: Geometry, d: Disk)
    requires WfDisk(g, d)
    ensures Inv(g, Recover(g, d), Init(d))
  {
    hide Word, Encode, Durable, Apply;
    RecoverCompletes(g, d);
  }

  /** The durable updates come from whole operations: none of them outstanding, none of them cut. */
  ghost predicate WholeOperations(s: State)
  {
    && s.durable <= |s.events|
    && (forall i, j :: 0 <= i < s.durable <= j < |s.events| ==> s.events[i].id != s.events[j].id)
    && (forall i, k :: 0 <= i < s.durable && 0 <= k < |s.ops| ==> s.events[i].id != s.ops[k].id)
  }

  /** Recovering the disk of s yields base with exactly the durable updates applied. */
  ghost predicate RecoversDurable(g: Geometry, base: Disk, s: State)
  {
    && WfDisk(g, s.disk) && |s.disk| == |base| && s.durable <= |s.events|
    && var r := Recover(g, s.disk);
       && WfDisk(g, r) && HeadBlocks(r[g.start]) == []
       && forall b :: Home(g, base, b) ==> r[b] == Hist(base, s.events[..s.durable], b)
  }

  /**
    Crash consistency over all interleavings: after any run, with any number of crashes in
    it, recovering the disk gives exactly the durable updates, which are whole operations.
   */
  lemma CrashConsistency(g: Geometry, d: Disk, acts: seq<Action>)
    requires WfDisk(g, d) && ValidRun(g, Init(d), acts)
    ensures RecoversDurable(g, Recover(g, d), After(g, Init(d), acts))
    ensures WholeOperations(After(g, Init(d), acts))
  {
    hide Word, Encode, Durable, Apply, Hist, Do, Enabled, BeforeHead, AfterHead, OpsOk, CacheOk,
         After, ValidRun, WholeOperations, HeadBlocks, WfHeader, WfDisk, RecoveryWrites;
    RunKeepsInv(g, d, acts);
    var s := After(g, Init(d), acts);
    InvWhole(s);
    InvDurable(g, Recover(g, d), s);
    RecoverCompletes(g, s.disk);
    assert forall b :: Home(g, Recover(g, d), b) == Home(g, s.disk, b);
  }

  lemma InvWhole(s: State)
    requires OpsOk(s)
    ensures WholeOperations(s)
  {
    hide Unused;
  }

  /**
    Isolation: no operation is outstanding while a commit runs, no logged block reaches its
    home before the header write, and running operations see every update so far.
   */
  lemma Isolation(g: Geometry, d: Disk, acts: seq<Action>)
    requires WfDisk(g, d) && ValidRun(g, Init(d), acts)
    ensures var s := After(g, Init(d), acts);
            && s.durable <= |s.events| && |s.disk| == |d|
            && (!s.phase.Running? ==> s.ops == [])
            && (s.phase.Running? || s.phase.Logging? ==>
                 forall b :: Home(g, d, b) ==> s.disk[b] == Hist(Recover(g, d), s.events[..s.durable], b))
            && (s.phase.Running? || s.phase.Logging? || s.phase.Installing? ==>
                 forall b :: Home(g, d, b) ==> View(s, b) == Hist(Recover(g, d), s.events, b))
  {
    hide Word, Encode, Durable, Apply, Hist, Do, Enabled;
    RunKeepsInv(g, d, acts);
    var s := After(g, Init(d), acts);
    assert forall b :: Home(g, d, b) == Home(g, s.disk, b);
  }

  /** A crash loses only operations that the last header write did not cover. */
  lemma CrashLosesOnlyUncommitted(g: Geometry, d: Disk, acts: seq<Action>)
    requires WfDisk(g, d) && ValidRun(g, Init(d), acts)
    ensures var s := After(g, Init(d), acts);
            && Enabled(g, s, Crash)
            && Do(g, s, Crash).events == s.events[..s.durable]
            && (s.phase.Running? && s.ops == [] && s.lh == [] ==>
                 forall b :: Home(g, d, b) ==>
                   Hist(Recover(g, d), s.events[..s.durable], b) == Hist(Recover(g, d), s.events, b))
  {
    hide Word, Encode, Durable, Apply, Hist;
    RunKeepsInv(g, d, acts);
    var s := After(g, Init(d), acts);
    assert forall b :: Home(g, d, b) == Home(g, s.disk, b);
  }

  // ---- log space ----

  /** Reservation: logged blocks plus unused budgets never exceed LOGSIZE, and logged blocks are distinct. */
  lemma Reservation(g: Geometry, d: Disk, acts: seq<Action>)
    requires WfDisk(g, d) && ValidRun(g, Init(d), acts)
    ensures var s := After(g, Init(d), acts);
            && |s.lh| + Unused(s.ops) <= LOGSIZE && Distinct(s.lh)
            && (g.size >= LOGSIZE + 1 ==>
                 forall op :: 0 <= op < |s.ops| && s.ops[op].used < MAXOPBLOCKS ==> !TooBig(g, s))
  {
    hide Word, Encode, Durable, Apply, Hist, Do, Enabled, BeforeHead, AfterHead;
    RunKeepsInv(g, d, acts);
    UnusedBounds(After(g, Init(d), acts).ops);
  }

  /** m appended blocks shared out over three operations, ten each. */
  function Share(m: nat, op: nat): (n: nat)
  {
    if m <= 10 * op then 0 else if m >= 10 * op + 10 then 10 else m - 10 * op
  }

  ghost predicate Filled(g: Geometry, d: Disk, s: State, m: nat)
  {
    && s.phase.Running? && |s.disk| == |d|
    && s.lh == seq(m, i requires 0 <= i < m => g.start + g.size + i)
    && |s.ops| == 3 && forall op :: 0 <= op < 3 ==> s.ops[op].used == Share(m, op)
  }

  lemma ExtendRun(g: Geometry, s: State, acts: seq<Action>, a: Action)
    requires ValidRun(g, s, acts) && Enabled(g, After(g, s, acts), a)
    ensures ValidRun(g, s, acts + [a]) && After(g, s, acts + [a]) == Do(g, After(g, s, acts), a)
  {
    hide Enabled, Do;
    assert (acts + [a])[..|acts|] == acts;
  }

  lemma ThreeBegins(g: Geometry, d: Disk) returns (acts: seq<Action>)
    requires WfDisk(g, d) && HeadBlocks(d[g.start]) == []
    ensures ValidRun(g, Init(d), acts) && Filled(g, d, After(g, Init(d), acts), 0)
  {
    hide Word, Encode, ValidRun, After, WfHeader;
    acts := [];
    assert ValidRun(g, Init(d), acts) && After(g, Init(d), acts) == Init(d) by { EmptyRun(g, Init(d)); }
    ExtendRun(g, Init(d), acts, ReadHead);
    acts := acts + [ReadHead];
    ExtendRun(g, Init(d), acts, FinishRecovery);
    acts := acts + [FinishRecovery];
    ExtendRun(g, Init(d), acts, Begin);
    acts := acts + [Begin];
    ExtendRun(g, Init(d), acts, Begin);
    acts := acts + [Begin];
    ExtendRun(g, Init(d), acts, Begin);
    acts := acts + [Begin];
  }

  lemma EmptyRun(g: Geometry, s: State)
    ensures ValidRun(g, s, []) && After(g, s, []) == s
  {}

  /** Operation m / 10 appends the next block. */
  lemma FillStep(g: Geometry, d: Disk, s: State, m: nat)
    requires Filled(g, d, s, m) && m < LOGSIZE && m + 1 < g.size && g.start + g.size + m < |d|
    ensures var a := Update(m / 10, g.start + g.size + m, ZERO);
            Enabled(g, s, a) && Filled(g, d, Do(g, s, a), m + 1)
  {
    hide Word, Encode, WfHeader;
    var a := Update(m / 10, g.start + g.size + m, ZERO);
    assert Share(m, m / 10) < 10;
    forall op | 0 <= op < 3 ensures Share(m + 1, op) == Share(m, op) + if op == m / 10 then 1 else 0
    { ShareStep(m, op); }
    assert a.b !in s.lh;
    assert Do(g, s, a).lh == s.lh + [a.b];
  }

  lemma ShareStep(m: nat, op: nat)
    ensures Share(m + 1, op) == Share(m, op) + if op == m / 10 then 1 else 0
  {}

  lemma {:induction false} Fill(g: Geometry, d: Disk, m: nat) returns (acts: seq<Action>)
    requires WfDisk(g, d) && HeadBlocks(d[g.start]) == []
    requires m <= LOGSIZE && m < g.size && g.start + g.size + m <= |d|
    ensures ValidRun(g, Init(d), acts) && Filled(g, d, After(g, Init(d), acts), m)
  {
    hide Word, Encode, ValidRun, After, Do, Enabled, Filled, HeadBlocks, WfDisk;
    if m == 0 {
      acts := ThreeBegins(g, d);
    } else {
      acts := Fill(g, d, m - 1);
      var a := Update((m - 1) / 10, g.start + g.size + (m - 1), ZERO);
      FillStep(g, d, After(g, Init(d), acts), m - 1);
      ExtendRun(g, Init(d), acts, a);
      acts := acts + [a];
    }
  }

  /**
    Log space exactly: an append that is within its operation's budget can panic
    if and only if the log has at most LOGSIZE blocks (mkfs makes it LOGSIZE).
   */
  lemma AppendPanicsWhenSmall(g: Geometry, d: Disk) returns (acts: seq<Action>, op: nat, b: nat)
    requires WfDisk(g, d) && HeadBlocks(d[g.start]) == []
    requires g.size <= LOGSIZE && g.start + 2 * g.size <= |d|
    ensures ValidRun(g, Init(d), acts)
    ensures var s := After(g, Init(d), acts);
            && s.phase.Running? && op < |s.ops| && s.ops[op].used < MAXOPBLOCKS
            && Home(g, s.disk, b) && b !in s.lh && TooBig(g, s)
  {
    hide Word, Encode, ValidRun, After, WfHeader;
    acts := Fill(g, d, g.size - 1);
    op, b := (g.size - 1) / 10, g.start + 2 * g.size - 1;
  }

  /**
    The size test comes before absorption, so rewriting a logged block panics once the log is full:
    at LOGSIZE blocks, or at all its data blocks if it has fewer.
   */
  lemma AbsorptionPanicsWhenFull(g: Geometry, d: Disk) returns (acts: seq<Action>, b: nat)
    requires WfDisk(g, d) && HeadBlocks(d[g.start]) == [] && g.size >= 2
    requires g.start + g.size + (if g.size > LOGSIZE then LOGSIZE else g.size - 1) <= |d|
    ensures ValidRun(g, Init(d), acts)
    ensures var s := After(g, Init(d), acts);
            && s.phase.Running? && s.ops != [] && TooBig(g, s)
            && |s.lh| == (if g.size > LOGSIZE then LOGSIZE else g.size - 1) && Home(g, s.disk, b) && b in s.lh
  {
    hide Word, Encode, ValidRun, After, WfHeader;
    acts := Fill(g, d, if g.size > LOGSIZE then LOGSIZE else g.size - 1);
    b := g.start + g.size;
    assert After(g, Init(d), acts).lh[0] == b;
  }
}
