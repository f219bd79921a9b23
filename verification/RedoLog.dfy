/**
  The on-disk redo log of log.c: its layout, the block writes that commit and
  recovery issue, and what a crash between any two of those writes leaves behind.
  A disk is a sequence of blocks and a block write is one atomic step.
 */
module RedoLog {
  import opened Blocks
  import opened Finite

  const MAXOPBLOCKS: nat := 10
  const LOGSIZE: nat := 30

  /** log.start and log.size: the header block, then size-1 log data blocks. */
  datatype Geometry = Geometry(start: nat, size: nat)

  predicate Home(g: Geometry, d: Disk, b: int)
  {
    0 <= b < |d| && !(g.start <= b < g.start + g.size)
  }

  /** A log header that commit may write: it fits the log and names distinct home blocks. */
  predicate WfHeader(g: Geometry, d: Disk, lh: seq<nat>)
  {
    && 1 <= g.size && g.start + g.size <= |d| <= UINT_MAX
    && |lh| <= LOGSIZE && |lh| < g.size
    && Distinct(lh)
    && forall i :: 0 <= i < |lh| ==> Home(g, d, lh[i])
  }

  // ---- the header block ----

  function HeadBlocks(hb: Block): (lh: seq<nat>)
    requires Word(hb, 0) <= LOGSIZE
  {
    seq(Word(hb, 0), i requires 0 <= i < Word(hb, 0) => Word(hb, i + 1) as nat)
  }

  /** write_head: n and the first k block numbers stored, every other word left as it was. */
  function EncodePrefix(hb: Block, lh: seq<nat>, k: nat): (r: Block)
    requires k <= |lh| <= LOGSIZE && forall i :: 0 <= i < |lh| ==> lh[i] <= UINT_MAX
    ensures Word(r, 0) == |lh|
    ensures forall j :: 1 <= j < NWORDS ==> Word(r, j) == if j <= k then lh[j - 1] else Word(hb, j)
  {
    if k == 0 then SetWord(hb, 0, |lh|) else SetWord(EncodePrefix(hb, lh, k - 1), k, lh[k - 1])
  }

  function Encode(hb: Block, lh: seq<nat>): (r: Block)
    requires |lh| <= LOGSIZE && forall i :: 0 <= i < |lh| ==> lh[i] <= UINT_MAX
    ensures Word(r, 0) == |lh| && HeadBlocks(r) == lh
  {
    EncodePrefix(hb, lh, |lh|)
  }

  predicate WfDisk(g: Geometry, d: Disk)
  {
    && 1 <= g.size && g.start + g.size <= |d|
    && Word(d[g.start], 0) <= LOGSIZE
    && WfHeader(g, d, HeadBlocks(d[g.start]))
  }

  /**
    What the disk durably stores at home block b: the logged copy if the header
    names b, the home copy otherwise.
   */
  ghost function Durable(g: Geometry, d: Disk, b: int): (r: Block)
    requires WfDisk(g, d) && Home(g, d, b)
  {
    var lh := HeadBlocks(d[g.start]);
    if i :| 0 <= i < |lh| && lh[i] == b then d[g.start + 1 + i] else d[b]
  }

  // ---- the writes of commit and of recovery ----

  /** write_log: copy the cached blocks into the log. */
  function LogWrites(g: Geometry, data: seq<Block>): (ws: seq<Write>)
  {
    seq(|data|, i requires 0 <= i < |data| => Write(g.start + 1 + i, data[i]))
  }

  /** install_trans: copy the logged blocks to their homes. */
  function InstallWrites(lh: seq<nat>, data: seq<Block>): (ws: seq<Write>)
    requires |lh| == |data|
  {
    seq(|lh|, i requires 0 <= i < |lh| => Write(lh[i], data[i]))
  }

  function LogData(g: Geometry, d: Disk, n: nat): (data: seq<Block>)
    requires g.start + n < |d|
  {
    d[g.start + 1..g.start + 1 + n]
  }

  /** recover_from_log: install what the header names, then clear the header. */
  function RecoveryWrites(g: Geometry, d: Disk): (ws: seq<Write>)
    requires WfDisk(g, d)
  {
    var lh := HeadBlocks(d[g.start]);
    InstallWrites(lh, LogData(g, d, |lh|)) + [Write(g.start, Encode(d[g.start], []))]
  }

  function Recover(g: Geometry, d: Disk): (e: Disk)
    requires WfDisk(g, d)
  {
    Apply(d, RecoveryWrites(g, d))
  }

  /** commit(): log the blocks, write the header, install, clear the header. */
  function CommitWrites(g: Geometry, d: Disk, lh: seq<nat>, data: seq<Block>): (ws: seq<Write>)
    requires WfHeader(g, d, lh) && |lh| == |data|
  {
    var hb := Encode(d[g.start], lh);
    LogWrites(g, data) + [Write(g.start, hb)] + InstallWrites(lh, data) + [Write(g.start, Encode(hb, []))]
  }

  /** The home contents after the transaction (lh, data) on top of d. */
  ghost function Updated(d: Disk, lh: seq<nat>, data: seq<Block>, b: int): (r: Block)
    requires |lh| == |data| && 0 <= b < |d|
  {
    if i :| 0 <= i < |lh| && lh[i] == b then data[i] else d[b]
  }

  // ---- recovery, crash by crash ----

  ghost predicate SameDurable(g: Geometry, d: Disk, e: Disk)
  {
    && |d| == |e| && WfDisk(g, d) && WfDisk(g, e)
    && forall b :: Home(g, d, b) ==> Durable(g, e, b) == Durable(g, d, b)
  }

  /** The durable contents, read off a disk whose header and log data are known. */
  lemma DurableIs(g: Geometry, d: Disk, lh: seq<nat>, data: seq<Block>)
    requires WfDisk(g, d) && HeadBlocks(d[g.start]) == lh && LogData(g, d, |lh|) == data
    ensures forall b :: Home(g, d, b) ==> Durable(g, d, b) == Updated(d, lh, data, b)
  {
    hide Word, Encode;
    forall b | Home(g, d, b) ensures Durable(g, d, b) == Updated(d, lh, data, b) {
      if i :| 0 <= i < |lh| && lh[i] == b {
        assert data[i] == d[g.start + 1 + i];
      }
    }
  }

  /** Overwriting home blocks named in lh with their own logged data changes no update by it. */
  lemma UpdatedAgain(d: Disk, e: Disk, lh: seq<nat>, data: seq<Block>, b: int)
    requires |lh| == |data| && |d| == |e| && 0 <= b < |d| && Distinct(lh)
    requires b !in lh ==> e[b] == d[b]
    ensures Updated(e, lh, data, b) == Updated(d, lh, data, b)
  {}

  /** The first k installs rewrite exactly the first k blocks named. */
  lemma {:induction false} InstallAt(d: Disk, lh: seq<nat>, data: seq<Block>, k: nat)
    requires |lh| == |data| && k <= |lh| && Distinct(lh)
    requires forall i :: 0 <= i < |lh| ==> lh[i] < |d|
    ensures var e := Apply(d, InstallWrites(lh, data)[..k]);
            && (forall i :: 0 <= i < k ==> e[lh[i]] == data[i])
            && (forall b :: 0 <= b < |d| && b !in lh[..k] ==> e[b] == d[b])
  {
    if k > 0 {
      InstallAt(d, lh, data, k - 1);
      ApplyStep(d, InstallWrites(lh, data), k - 1);
      assert lh[..k] == lh[..k - 1] + [lh[k - 1]];
    }
  }

  /** After k installs the log itself is untouched and exactly the first k homes are rewritten. */
  lemma InstallPrefix(g: Geometry, d: Disk, k: nat)
    requires WfDisk(g, d) && k <= |HeadBlocks(d[g.start])|
    ensures var e := Apply(d, RecoveryWrites(g, d)[..k]);
            var lh := HeadBlocks(d[g.start]);
            && (forall b :: g.start <= b < g.start + g.size ==> e[b] == d[b])
            && (forall i :: 0 <= i < k ==> e[lh[i]] == d[g.start + 1 + i])
            && (forall b :: Home(g, d, b) && b !in lh[..k] ==> e[b] == d[b])
  {
    hide Word, Encode, Apply;
    var lh := HeadBlocks(d[g.start]);
    var data := LogData(g, d, |lh|);
    InstallAt(d, lh, data, k);
    assert RecoveryWrites(g, d)[..k] == InstallWrites(lh, data)[..k];
    forall b | g.start <= b < g.start + g.size ensures b !in lh[..k] {
      assert !Home(g, d, b);
    }
  }

  /** Part way through the installs the durable contents are what they were. */
  lemma InstallKeepsDurable(g: Geometry, d: Disk, k: nat)
    requires WfDisk(g, d) && k <= |HeadBlocks(d[g.start])|
    ensures SameDurable(g, d, Apply(d, RecoveryWrites(g, d)[..k]))
  {
    hide Word, Encode, Durable, Updated, Apply;
    InstallPrefix(g, d, k);
    var e := Apply(d, RecoveryWrites(g, d)[..k]);
    var lh := HeadBlocks(d[g.start]);
    var data := LogData(g, d, |lh|);
    assert LogData(g, e, |lh|) == data;
    DurableIs(g, d, lh, data);
    DurableIs(g, e, lh, data);
    forall b | Home(g, d, b) ensures Durable(g, e, b) == Durable(g, d, b) {
      UpdatedAgain(d, e, lh, data, b);
    }
  }

  /** A finished recovery empties the header and brings every home block to its durable contents. */
  lemma RecoverCompletes(g: Geometry, d: Disk)
    requires WfDisk(g, d)
    ensures var e := Recover(g, d);
            && WfDisk(g, e) && HeadBlocks(e[g.start]) == []
            && forall b :: Home(g, d, b) ==> e[b] == Durable(g, d, b) == Durable(g, e, b)
  {
    hide Word, Encode, Durable, Apply;
    var lh := HeadBlocks(d[g.start]);
    var data := LogData(g, d, |lh|);
    var ws := RecoveryWrites(g, d);
    InstallPrefix(g, d, |lh|);
    ApplyStep(d, ws, |lh|);
    assert ws[..|lh| + 1] == ws;
    assert lh[..|lh|] == lh;
    DurableIs(g, d, lh, data);
    var e := Recover(g, d);
    DurableIs(g, e, [], []);
  }

  /** Any prefix of the recovery writes leaves the durable contents as they were. */
  lemma RecoveryPrefix(g: Geometry, d: Disk, k: nat)
    requires WfDisk(g, d) && k <= |RecoveryWrites(g, d)|
    ensures SameDurable(g, d, Apply(d, RecoveryWrites(g, d)[..k]))
  {
    hide Word, Encode, Durable, Apply, WfHeader;
    if k <= |HeadBlocks(d[g.start])| {
      InstallKeepsDurable(g, d, k);
    } else {
      RecoverCompletes(g, d);
      assert RecoveryWrites(g, d)[..k] == RecoveryWrites(g, d);
    }
  }

  /** The disk after recoveries that crash after crashes[0], crashes[1], ... block writes. */
  function CrashyRecovery(g: Geometry, d: Disk, crashes: seq<nat>): (e: Disk)
    requires WfDisk(g, d)
    ensures SameDurable(g, d, e)
    decreases |crashes|
  {
    if crashes == [] then d else
      var ws := RecoveryWrites(g, d);
      var k := if crashes[0] <= |ws| then crashes[0] else |ws|;
      RecoveryPrefix(g, d, k);
      CrashyRecovery(g, Apply(d, ws[..k]), crashes[1..])
  }

  // ---- commit, crash by crash ----

  /** Before the header write only log data blocks change. */
  lemma {:induction false} LogPrefix(g: Geometry, d: Disk, lh: seq<nat>, data: seq<Block>, k: nat)
    requires WfHeader(g, d, lh) && |lh| == |data| && k <= |lh|
    ensures var e := Apply(d, CommitWrites(g, d, lh, data)[..k]);
            && (forall i :: 0 <= i < k ==> e[g.start + 1 + i] == data[i])
            && (forall b :: 0 <= b < |d| && !(g.start < b <= g.start + k) ==> e[b] == d[b])
  {
    hide Word, Encode;
    if k > 0 {
      LogPrefix(g, d, lh, data, k - 1);
      ApplyStep(d, CommitWrites(g, d, lh, data), k - 1);
    }
  }

  /** The header write is the commit point. */
  lemma HeaderCommits(g: Geometry, d: Disk, lh: seq<nat>, data: seq<Block>)
    requires WfHeader(g, d, lh) && |lh| == |data|
    ensures var e := Apply(d, CommitWrites(g, d, lh, data)[..|lh| + 1]);
            && WfDisk(g, e) && HeadBlocks(e[g.start]) == lh && LogData(g, e, |lh|) == data
            && e[g.start] == Encode(d[g.start], lh)
            && forall b :: Home(g, d, b) ==> Durable(g, e, b) == Updated(d, lh, data, b)
  {
    hide Word, Encode, Durable, Updated, Apply;
    LogPrefix(g, d, lh, data, |lh|);
    ApplyStep(d, CommitWrites(g, d, lh, data), |lh|);
    var e := Apply(d, CommitWrites(g, d, lh, data)[..|lh| + 1]);
    assert HeadBlocks(e[g.start]) == lh;
    assert LogData(g, e, |lh|) == data;
    DurableIs(g, e, lh, data);
    forall b | Home(g, d, b) ensures Durable(g, e, b) == Updated(d, lh, data, b) {
      UpdatedAgain(d, e, lh, data, b);
    }
  }

  /** Commit's writes after the header write are exactly a recovery of the disk so far. */
  lemma CommitTailIsRecovery(g: Geometry, d: Disk, lh: seq<nat>, data: seq<Block>, k: nat)
    requires WfHeader(g, d, lh) && |lh| == |data|
    requires |lh| + 1 <= k <= |CommitWrites(g, d, lh, data)|
    ensures var ws := CommitWrites(g, d, lh, data);
            var e := Apply(d, ws[..|lh| + 1]);
            && WfDisk(g, e) && k - |lh| - 1 <= |RecoveryWrites(g, e)|
            && Apply(d, ws[..k]) == Apply(e, RecoveryWrites(g, e)[..k - |lh| - 1])
  {
    hide Word, Encode, Durable, Updated, Apply;
    HeaderCommits(g, d, lh, data);
    var ws := CommitWrites(g, d, lh, data);
    var e := Apply(d, ws[..|lh| + 1]);
    assert ws[|lh| + 1..] == RecoveryWrites(g, e);
    assert ws[..k] == ws[..|lh| + 1] + RecoveryWrites(g, e)[..k - |lh| - 1];
    ApplyConcat(d, ws[..|lh| + 1], RecoveryWrites(g, e)[..k - |lh| - 1]);
  }

  /**
    The durable contents after k of the commit writes: all old up to and including
    the last log data write, all new from the header write on.
   */
  lemma CommitPrefix(g: Geometry, d: Disk, lh: seq<nat>, data: seq<Block>, k: nat)
    requires WfDisk(g, d) && HeadBlocks(d[g.start]) == []
    requires WfHeader(g, d, lh) && |lh| == |data| && k <= |CommitWrites(g, d, lh, data)|
    ensures var e := Apply(d, CommitWrites(g, d, lh, data)[..k]);
            && WfDisk(g, e)
            && forall b :: Home(g, d, b) ==>
                 Durable(g, e, b) == if k <= |lh| then d[b] else Updated(d, lh, data, b)
  {
    hide Word, Encode, Durable, Apply, CommitWrites, RecoveryWrites;
    if k <= |lh| {
      LogPrefix(g, d, lh, data, k);
      DurableIs(g, Apply(d, CommitWrites(g, d, lh, data)[..k]), [], []);
    } else {
      hide Updated;
      HeaderCommits(g, d, lh, data);
      CommitTailIsRecovery(g, d, lh, data, k);
      RecoveryPrefix(g, Apply(d, CommitWrites(g, d, lh, data)[..|lh| + 1]), k - |lh| - 1);
    }
  }

  /**
    Crash atomicity. Crash after any number k of commit's block writes, crash any number
    of times during recovery, and then let one recovery finish: the header is empty and
    the home blocks are all old (k <= n) or all new (k > n).
   */
  lemma CrashAtomicity(g: Geometry, d: Disk, lh: seq<nat>, data: seq<Block>, k: nat, crashes: seq<nat>)
    requires WfDisk(g, d) && HeadBlocks(d[g.start]) == []
    requires WfHeader(g, d, lh) && |lh| == |data| && k <= |CommitWrites(g, d, lh, data)|
    ensures var e := Apply(d, CommitWrites(g, d, lh, data)[..k]);
            && WfDisk(g, e)
            && var r := Recover(g, CrashyRecovery(g, e, crashes));
               && WfDisk(g, r) && HeadBlocks(r[g.start]) == []
               && (k <= |lh| ==> forall b :: Home(g, d, b) ==> r[b] == d[b])
               && (k > |lh| ==> forall b :: Home(g, d, b) ==> r[b] == Updated(d, lh, data, b))
  {
    hide Word, Encode, Durable, Updated, Apply, CommitWrites, RecoveryWrites;
    CommitPrefix(g, d, lh, data, k);
    var e := Apply(d, CommitWrites(g, d, lh, data)[..k]);
    var c := CrashyRecovery(g, e, crashes);
    RecoverCompletes(g, c);
    assert forall b :: Home(g, c, b) == Home(g, d, b);
  }

  /** A commit that runs to its end leaves the new contents and an empty header. */
  lemma CommitCompletes(g: Geometry, d: Disk, lh: seq<nat>, data: seq<Block>)
    requires WfHeader(g, d, lh) && |lh| == |data|
    ensures var e := Apply(d, CommitWrites(g, d, lh, data));
            && WfDisk(g, e) && HeadBlocks(e[g.start]) == []
            && forall b :: Home(g, d, b) ==> e[b] == Updated(d, lh, data, b)
  {
    hide Word, Encode, Durable, Updated, Apply;
    var ws := CommitWrites(g, d, lh, data);
    HeaderCommits(g, d, lh, data);
    CommitTailIsRecovery(g, d, lh, data, |ws|);
    var e := Apply(d, ws[..|lh| + 1]);
    assert ws[..|ws|] == ws;
    assert RecoveryWrites(g, e)[..|lh| + 1] == RecoveryWrites(g, e);
    RecoverCompletes(g, e);
  }
}
