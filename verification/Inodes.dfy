/**
  Inodes and the blocks they own: the on-disk inode, the block slots of an inode,
  the free map, and the contents of a file as the bytes its slots lead to.
 */
module Inodes {
  import opened Blocks

  const NDIRECT: nat := 12
  const NINDIRECT: nat := 128
  const MAXFILE: nat := NDIRECT + NINDIRECT
  const IPB: nat := 8           // inodes per block
  const INODE_WORDS: nat := 16  // sizeof(struct dinode) / 4

  /** Block slots of an inode: the direct ones, the indirect block itself, and the ones in it. */
  const NSLOTS: nat := NDIRECT + 1 + NINDIRECT
  const INDIRECT: nat := NDIRECT

  type Short = x: nat | x < 0x1_0000

  datatype Dinode = Dinode(typ: Short, major: Short, minor: Short, nlink: Short, size: Word32, addrs: seq<Word32>)
  type Inode = ip: Dinode | |ip.addrs| == NDIRECT + 1 witness Dinode(0, 0, 0, 0, 0, seq(NDIRECT + 1, _ => 0))

  /** The super block: log, inode blocks, free map and data blocks in this order. */
  datatype Super = Super(size: nat, inodestart: nat, bmapstart: nat, datastart: nat)

  datatype Fs = Fs(blocks: Disk, inodes: seq<Inode>)

  predicate WfLayout(sb: Super, fs: Fs)
  {
    && sb.size == |fs.blocks| <= UINT_MAX
    && 2 <= sb.inodestart
    && sb.inodestart + |fs.inodes| / IPB + 1 <= sb.bmapstart
    && sb.bmapstart + sb.size / BPB + 1 <= sb.datastart <= sb.size
  }

  // ---- the on-disk inode ----

  function DinodeWord(ip: Inode, k: nat): (w: Word32)
    requires k < INODE_WORDS
  {
    if k == 0 then ip.typ + 0x1_0000 * (ip.major as int)
    else if k == 1 then ip.minor + 0x1_0000 * (ip.nlink as int)
    else if k == 2 then ip.size
    else ip.addrs[k - 3]
  }

  function PutWords(b: Block, slot: nat, ip: Inode, k: nat): (r: Block)
    requires slot < IPB && k <= INODE_WORDS
    ensures forall j :: 0 <= j < NWORDS ==>
              Word(r, j) ==
              if INODE_WORDS * slot <= j < INODE_WORDS * slot + k then DinodeWord(ip, j - INODE_WORDS * slot)
              else Word(b, j)
    ensures forall p :: 0 <= p < BSIZE && !(INODE_WORDS * slot <= p / 4 < INODE_WORDS * slot + k) ==> r[p] == b[p]
  {
    if k == 0 then b else SetWord(PutWords(b, slot, ip, k - 1), INODE_WORDS * slot + k - 1, DinodeWord(ip, k - 1))
  }

  /** iupdate's copy of the inode into its block. */
  function PutDinode(b: Block, slot: nat, ip: Inode): (r: Block)
    requires slot < IPB
  {
    PutWords(b, slot, ip, INODE_WORDS)
  }

  function GetAddrs(b: Block, o: nat): (addrs: seq<Word32>)
    requires o + NDIRECT + 1 <= NWORDS
    ensures |addrs| == NDIRECT + 1
  {
    seq<Word32>(NDIRECT + 1, k requires 0 <= k < NDIRECT + 1 => Word(b, o + k))
  }

  /** ilock's copy of the inode out of its block. */
  function GetDinode(b: Block, slot: nat): (ip: Inode)
    requires slot < IPB
  {
    var w0, w1 := Word(b, INODE_WORDS * slot), Word(b, INODE_WORDS * slot + 1);
    Dinode(w0 % 0x1_0000, w0 / 0x1_0000, w1 % 0x1_0000, w1 / 0x1_0000,
           Word(b, INODE_WORDS * slot + 2), GetAddrs(b, INODE_WORDS * slot + 3))
  }

  /**
    The 64 bytes of an on-disk inode: type, major, minor and nlink as 16-bit numbers, the size and the 13 addresses as
    32-bit ones, lowest byte first.
   */
  lemma DinodeLayout(b: Block, slot: nat, ip: Inode)
    requires slot < IPB
    ensures var r, o := PutDinode(b, slot, ip), 64 * slot;
            && r[o] + 0x100 * (r[o + 1] as int) == ip.typ && r[o + 2] + 0x100 * (r[o + 3] as int) == ip.major
            && r[o + 4] + 0x100 * (r[o + 5] as int) == ip.minor && r[o + 6] + 0x100 * (r[o + 7] as int) == ip.nlink
            && Word(r, 16 * slot + 2) == ip.size
            && (forall k :: 0 <= k < 13 ==> Word(r, 16 * slot + 3 + k) == ip.addrs[k])
            && forall p :: 0 <= p < BSIZE && !(o <= p < o + 64) ==> r[p] == b[p]
  {
    var r := PutDinode(b, slot, ip);
    HalfWords(r, 16 * slot, ip.typ, ip.major);
    HalfWords(r, 16 * slot + 1, ip.minor, ip.nlink);
  }

  lemma HalfWords(r: Block, i: nat, lo: nat, hi: nat)
    requires i < NWORDS && lo < 0x1_0000 && hi < 0x1_0000 && Word(r, i) == lo + 0x1_0000 * hi
    ensures r[4 * i] + 0x100 * (r[4 * i + 1] as int) == lo && r[4 * i + 2] + 0x100 * (r[4 * i + 3] as int) == hi
  {}

  /** Reading back an inode gives what iupdate wrote, and its neighbours are untouched. */
  lemma DinodeRoundTrip(b: Block, slot: nat, ip: Inode)
    requires slot < IPB
    ensures GetDinode(PutDinode(b, slot, ip), slot) == ip
    ensures forall s :: 0 <= s < IPB && s != slot ==> GetDinode(PutDinode(b, slot, ip), s) == GetDinode(b, s)
  {
    hide Word;
    var r := PutDinode(b, slot, ip);
    assert GetDinode(r, slot).addrs == ip.addrs;
    forall s | 0 <= s < IPB && s != slot ensures GetDinode(r, s) == GetDinode(b, s) {
      assert GetDinode(r, s).addrs == GetDinode(b, s).addrs;
    }
  }

  function Iblock(sb: Super, i: nat): (b: nat)
  {
    i / IPB + sb.inodestart
  }

  /** The inode cache is write-through: every in-memory inode is also the one on disk. */
  ghost predicate Synced(sb: Super, fs: Fs)
    requires WfLayout(sb, fs)
  {
    forall i :: 0 <= i < |fs.inodes| ==> SyncedAt(sb, fs, i)
  }

  ghost predicate SyncedAt(sb: Super, fs: Fs, i: nat)
    requires WfLayout(sb, fs) && i < |fs.inodes|
  {
    GetDinode(fs.blocks[Iblock(sb, i)], i % IPB) == fs.inodes[i]
  }

  // ---- block slots ----

  function SlotRef(blocks: Disk, ip: Inode, k: nat): (b: nat)
    requires k < NSLOTS
  {
    if k <= INDIRECT then ip.addrs[k]
    else if ip.addrs[INDIRECT] == 0 || ip.addrs[INDIRECT] >= |blocks| then 0
    else Word(blocks[ip.addrs[INDIRECT]], k - INDIRECT - 1)
  }

  /** The block that slot k of inode i leads to, 0 for none. */
  function RefAt(fs: Fs, i: nat, k: nat): (b: nat)
    requires i < |fs.inodes| && k < NSLOTS
  {
    SlotRef(fs.blocks, fs.inodes[i], k)
  }

  /** The slot of the nth block of a file. */
  function SlotOf(n: nat): (k: nat)
  {
    if n < NDIRECT then n else n + 1
  }

  ghost predicate Refd(fs: Fs, b: nat)
  {
    exists i, k :: 0 <= i < |fs.inodes| && 0 <= k < NSLOTS && RefAt(fs, i, k) == b
  }

  // ---- the free map ----

  function Bblock(sb: Super, b: nat): (c: nat)
  {
    b / BPB + sb.bmapstart
  }

  predicate BitAt(sb: Super, blocks: Disk, b: nat)
    requires Bblock(sb, b) < |blocks|
  {
    Bit(blocks[Bblock(sb, b)], b % BPB)
  }

  /** balloc's change: the bit is set and the block is zeroed. */
  function AllocBlock(sb: Super, blocks: Disk, b: nat): (r: Disk)
    requires Bblock(sb, b) < |blocks| && b < |blocks| && !BitAt(sb, blocks, b)
  {
    blocks[Bblock(sb, b) := SetBit(blocks[Bblock(sb, b)], b % BPB)][b := ZERO]
  }

  /** bfree's change: the bit is cleared. */
  function FreeBlock(sb: Super, blocks: Disk, b: nat): (r: Disk)
    requires Bblock(sb, b) < |blocks| && BitAt(sb, blocks, b)
  {
    blocks[Bblock(sb, b) := ClearBit(blocks[Bblock(sb, b)], b % BPB)]
  }

  // ---- ownership ----

  ghost predicate RefsInData(sb: Super, fs: Fs)
  {
    forall i, k :: 0 <= i < |fs.inodes| && 0 <= k < NSLOTS && RefAt(fs, i, k) != 0 ==>
      sb.datastart <= RefAt(fs, i, k) < sb.size
  }

  /** No block is reached from two slots. */
  ghost predicate RefsDistinct(fs: Fs)
  {
    forall i, k, j, l :: 0 <= i < |fs.inodes| && 0 <= k < NSLOTS && 0 <= j < |fs.inodes| && 0 <= l < NSLOTS ==>
      RefAt(fs, i, k) == 0 || RefAt(fs, i, k) != RefAt(fs, j, l) || (i == j && k == l)
  }

  /**
    A bit of the free map is set exactly when its block is metadata, is reached from a slot
    and not in `freed`, or is in `pending` (allocated but not yet stored in a slot).
   */
  ghost predicate Bitmap(sb: Super, fs: Fs, pending: set<nat>, freed: set<nat>)
    requires WfLayout(sb, fs)
  {
    forall b :: 0 <= b < sb.size ==>
      (BitAt(sb, fs.blocks, b) <==> b < sb.datastart || (Refd(fs, b) && b !in freed) || b in pending)
  }

  ghost predicate Owns(sb: Super, fs: Fs, pending: set<nat>, freed: set<nat>)
  {
    && WfLayout(sb, fs) && RefsInData(sb, fs) && RefsDistinct(fs)
    && (forall b :: b in pending ==> sb.datastart <= b < sb.size && !Refd(fs, b))
    && Bitmap(sb, fs, pending, freed)
  }

  lemma BblockIsMeta(sb: Super, fs: Fs, b: nat)
    requires WfLayout(sb, fs) && b < sb.size
    ensures sb.bmapstart <= Bblock(sb, b) < sb.datastart
  {}

  /** Slots look only at their inode and its indirect block. */
  lemma SlotFrame(fs: Fs, fs': Fs, i: nat)
    requires i < |fs.inodes| == |fs'.inodes| && |fs.blocks| == |fs'.blocks| && fs.inodes[i] == fs'.inodes[i]
    requires var a := fs.inodes[i].addrs[INDIRECT]; 0 != a < |fs.blocks| ==> fs.blocks[a] == fs'.blocks[a]
    ensures forall k :: 0 <= k < NSLOTS ==> RefAt(fs', i, k) == RefAt(fs, i, k)
  {
    hide Word;
  }

  /** Blocks that no slot leads to, and metadata, can change without moving any slot. */
  lemma RefsFrame(sb: Super, fs: Fs, fs': Fs)
    requires WfLayout(sb, fs) && fs'.inodes == fs.inodes && |fs'.blocks| == |fs.blocks| && RefsInData(sb, fs)
    requires forall b :: sb.datastart <= b < sb.size && Refd(fs, b) ==> fs'.blocks[b] == fs.blocks[b]
    ensures forall i, k :: 0 <= i < |fs.inodes| && 0 <= k < NSLOTS ==> RefAt(fs', i, k) == RefAt(fs, i, k)
  {
    hide SlotRef;
    forall i, k | 0 <= i < |fs.inodes| && 0 <= k < NSLOTS ensures RefAt(fs', i, k) == RefAt(fs, i, k) {
      assert RefAt(fs, i, INDIRECT) == fs.inodes[i].addrs[INDIRECT] by { IndirectSlot(fs, i); }
      SlotFrame(fs, fs', i);
    }
  }

  lemma IndirectSlot(fs: Fs, i: nat)
    requires i < |fs.inodes|
    ensures RefAt(fs, i, INDIRECT) == fs.inodes[i].addrs[INDIRECT]
  {}

  /** The same slots everywhere. */
  ghost predicate SameRefs(fs: Fs, fs': Fs)
  {
    && |fs'.inodes| == |fs.inodes| && |fs'.blocks| == |fs.blocks|
    && forall i, k :: 0 <= i < |fs.inodes| && 0 <= k < NSLOTS ==> RefAt(fs', i, k) == RefAt(fs, i, k)
  }

  lemma SameRefsOwn(sb: Super, fs: Fs, fs': Fs)
    requires SameRefs(fs, fs') && WfLayout(sb, fs) && RefsInData(sb, fs) && RefsDistinct(fs)
    ensures WfLayout(sb, fs') && RefsInData(sb, fs') && RefsDistinct(fs')
    ensures forall b :: Refd(fs', b) == Refd(fs, b)
  {
    hide RefAt;
  }

  /** balloc: a free block becomes pending. */
  lemma AllocOwns(sb: Super, fs: Fs, pending: set<nat>, b: nat)
    requires Owns(sb, fs, pending, {}) && b < sb.size && !BitAt(sb, fs.blocks, b)
    ensures var fs' := fs.(blocks := AllocBlock(sb, fs.blocks, b));
            && Owns(sb, fs', pending + {b}, {}) && SameRefs(fs, fs')
            && sb.datastart <= b && !Refd(fs, b) && b !in pending
            && forall c :: sb.datastart <= c < sb.size && c != b ==> fs'.blocks[c] == fs.blocks[c]
  {
    hide RefAt, Bit, SetBit;
    var fs' := fs.(blocks := AllocBlock(sb, fs.blocks, b));
    BblockIsMeta(sb, fs, b);
    RefsFrame(sb, fs, fs');
    SameRefsOwn(sb, fs, fs');
    BitsAfterAlloc(sb, fs, b);
  }

  lemma BitsAfterAlloc(sb: Super, fs: Fs, b: nat)
    requires WfLayout(sb, fs) && sb.datastart <= b < sb.size && !BitAt(sb, fs.blocks, b)
    ensures forall c :: 0 <= c < sb.size ==>
              BitAt(sb, AllocBlock(sb, fs.blocks, b), c) == (c == b || BitAt(sb, fs.blocks, c))
  {
    hide Bit, SetBit;
    SetBitOnly(fs.blocks[Bblock(sb, b)], b % BPB);
    forall c | 0 <= c < sb.size
      ensures BitAt(sb, AllocBlock(sb, fs.blocks, b), c) == (c == b || BitAt(sb, fs.blocks, c))
    {
      BblockIsMeta(sb, fs, c);
    }
  }

  lemma BitsAfterFree(sb: Super, fs: Fs, b: nat)
    requires WfLayout(sb, fs) && b < sb.size && BitAt(sb, fs.blocks, b)
    ensures forall c :: 0 <= c < sb.size ==>
              BitAt(sb, FreeBlock(sb, fs.blocks, b), c) == (c != b && BitAt(sb, fs.blocks, c))
  {
    hide Bit, ClearBit;
    ClearBitOnly(fs.blocks[Bblock(sb, b)], b % BPB);
  }

  /** Storing a pending block in an empty slot. */
  lemma LinkOwns(sb: Super, fs: Fs, fs': Fs, i: nat, k: nat, b: nat)
    requires Owns(sb, fs, {b}, {}) && i < |fs.inodes| && k < NSLOTS && RefAt(fs, i, k) == 0
    requires |fs'.inodes| == |fs.inodes| && |fs'.blocks| == |fs.blocks|
    requires RefAt(fs', i, k) == b
    requires forall j, l :: 0 <= j < |fs.inodes| && 0 <= l < NSLOTS && (j != i || l != k) ==>
             RefAt(fs', j, l) == RefAt(fs, j, l)
    requires forall c :: 0 <= c < sb.size ==> BitAt(sb, fs'.blocks, c) == BitAt(sb, fs.blocks, c)
    ensures Owns(sb, fs', {}, {})
  {
    hide RefAt, BitAt;
    forall c ensures Refd(fs', c) ==> Refd(fs, c) || c == b {
      if Refd(fs', c) {
        var j, l :| 0 <= j < |fs'.inodes| && 0 <= l < NSLOTS && RefAt(fs', j, l) == c;
      }
    }
    forall c | Refd(fs, c) && c != 0 ensures Refd(fs', c) {
      var j, l :| 0 <= j < |fs.inodes| && 0 <= l < NSLOTS && RefAt(fs, j, l) == c;
      assert RefAt(fs', j, l) == c;
    }
  }

  /** Every slot but slot k of inode i is as before, and so is the rest of every inode. */
  ghost predicate OneSlot(fs: Fs, fs': Fs, i: nat, k: nat)
    requires i < |fs.inodes|
  {
    && |fs'.inodes| == |fs.inodes| && |fs'.blocks| == |fs.blocks|
    && fs'.inodes == fs.inodes[i := fs.inodes[i].(addrs := fs'.inodes[i].addrs)]
    && forall j, l :: 0 <= j < |fs.inodes| && 0 <= l < NSLOTS && (j != i || l != k) ==>
         RefAt(fs', j, l) == RefAt(fs, j, l)
  }

  /** Owned blocks other than x keep their contents, and so do the boot, super, log and inode blocks. */
  ghost predicate DataKept(sb: Super, fs: Fs, fs': Fs, x: nat)
  {
    && |fs'.blocks| == |fs.blocks| == sb.size
    && (forall c :: sb.datastart <= c < sb.size && Refd(fs, c) && c != x ==> fs'.blocks[c] == fs.blocks[c])
    && (forall c :: 0 <= c < sb.bmapstart && c < sb.size ==> fs'.blocks[c] == fs.blocks[c])
  }

  function WithAddr(fs: Fs, i: nat, k: nat, b: Word32): (fs': Fs)
    requires i < |fs.inodes| && k <= INDIRECT
  {
    fs.(inodes := fs.inodes[i := fs.inodes[i].(addrs := fs.inodes[i].addrs[k := b])])
  }

  lemma WithAddrSlots(fs: Fs, i: nat, k: nat, b: Word32)
    requires i < |fs.inodes| && k <= INDIRECT && fs.inodes[i].addrs[k] == 0
    requires 0 != b < |fs.blocks| && fs.blocks[b] == ZERO
    ensures OneSlot(fs, WithAddr(fs, i, k, b), i, k) && RefAt(WithAddr(fs, i, k, b), i, k) == b
  {
    hide Word;
    forall j | 0 <= j < NINDIRECT ensures Word(ZERO, j) == 0 { WordZero(j); }
  }

  /** An empty address of the inode is filled with a newly allocated block. */
  lemma LinkAddr(sb: Super, fs: Fs, i: nat, k: nat, b: nat)
    requires Owns(sb, fs, {}, {}) && i < |fs.inodes| && k <= INDIRECT && fs.inodes[i].addrs[k] == 0
    requires b < sb.size && !BitAt(sb, fs.blocks, b)
    ensures var fs' := WithAddr(fs.(blocks := AllocBlock(sb, fs.blocks, b)), i, k, b);
            && Owns(sb, fs', {}, {}) && OneSlot(fs, fs', i, k) && RefAt(fs', i, k) == b
            && !Refd(fs, b) && b != 0 && fs'.blocks[b] == ZERO && DataKept(sb, fs, fs', 0)
  {
    hide RefAt, BitAt, Bit, SetBit, RefsDistinct;
    AllocOwns(sb, fs, {}, b);
    var fs1 := fs.(blocks := AllocBlock(sb, fs.blocks, b));
    var fs2 := WithAddr(fs1, i, k, b);
    assert {} + {b} == {b};
    WithAddrSlots(fs1, i, k, b);
    assert RefAt(fs1, i, k) == 0 by { AddrSlot(fs1, i, k); }
    LinkOwns(sb, fs1, fs2, i, k, b);
    BblockIsMeta(sb, fs, b);
  }

  lemma AddrSlot(fs: Fs, i: nat, k: nat)
    requires i < |fs.inodes| && k <= INDIRECT
    ensures RefAt(fs, i, k) == fs.inodes[i].addrs[k]
  {}

  function WithWord(fs: Fs, a: nat, j: nat, b: Word32): (fs': Fs)
    requires a < |fs.blocks| && j < NINDIRECT
  {
    fs.(blocks := fs.blocks[a := SetWord(fs.blocks[a], j, b)])
  }

  lemma WithWordSlots(sb: Super, fs: Fs, i: nat, j: nat, b: Word32)
    requires WfLayout(sb, fs) && RefsInData(sb, fs) && RefsDistinct(fs)
    requires i < |fs.inodes| && j < NINDIRECT && fs.inodes[i].addrs[INDIRECT] != 0
    ensures fs.inodes[i].addrs[INDIRECT] < |fs.blocks|
    ensures var fs' := WithWord(fs, fs.inodes[i].addrs[INDIRECT], j, b);
            OneSlot(fs, fs', i, INDIRECT + 1 + j) && RefAt(fs', i, INDIRECT + 1 + j) == b
  {
    hide Word;
    AddrSlot(fs, i, INDIRECT);
    var a := fs.inodes[i].addrs[INDIRECT];
    var fs' := WithWord(fs, a, j, b);
    forall m, l | 0 <= m < |fs.inodes| && 0 <= l < NSLOTS && (m != i || l != INDIRECT + 1 + j)
      ensures RefAt(fs', m, l) == RefAt(fs, m, l)
    {
      if m != i {
        assert RefAt(fs, i, INDIRECT) != RefAt(fs, m, INDIRECT);
        AddrSlot(fs, m, INDIRECT);
        SlotFrame(fs, fs', m);
      }
    }
  }

  /** A store in a data block moves no bit of the free map. */
  lemma DataKeepsBits(sb: Super, fs: Fs, a: nat, x: Block)
    requires WfLayout(sb, fs) && sb.datastart <= a < sb.size
    ensures forall c :: 0 <= c < sb.size ==> BitAt(sb, fs.blocks[a := x], c) == BitAt(sb, fs.blocks, c)
  {
    hide Bit;
    forall c | 0 <= c < sb.size ensures BitAt(sb, fs.blocks[a := x], c) == BitAt(sb, fs.blocks, c) {
      BblockIsMeta(sb, fs, c);
    }
  }

  /** An empty entry of the indirect block is filled with a newly allocated block. */
  lemma LinkWord(sb: Super, fs: Fs, i: nat, j: nat, b: nat)
    requires Owns(sb, fs, {}, {}) && i < |fs.inodes| && j < NINDIRECT
    requires fs.inodes[i].addrs[INDIRECT] != 0 && RefAt(fs, i, INDIRECT + 1 + j) == 0
    requires b < sb.size && !BitAt(sb, fs.blocks, b)
    ensures fs.inodes[i].addrs[INDIRECT] < sb.size && fs.inodes[i].addrs[INDIRECT] != b
    ensures var a := fs.inodes[i].addrs[INDIRECT];
            var fs1 := fs.(blocks := AllocBlock(sb, fs.blocks, b));
            var fs' := WithWord(fs1, a, j, b);
            && fs1.blocks[a] == fs.blocks[a]
            && Owns(sb, fs', {}, {}) && OneSlot(fs, fs', i, INDIRECT + 1 + j) && RefAt(fs', i, INDIRECT + 1 + j) == b
            && !Refd(fs, b) && b != 0 && fs'.blocks[b] == ZERO && DataKept(sb, fs, fs', a)
  {
    hide RefAt, BitAt, SetBit, Word, SetWord, RefsDistinct;
    AllocOwns(sb, fs, {}, b);
    var fs1 := fs.(blocks := AllocBlock(sb, fs.blocks, b));
    var a := fs.inodes[i].addrs[INDIRECT];
    assert {} + {b} == {b};
    AddrSlot(fs, i, INDIRECT);
    assert Refd(fs, a);
    WithWordSlots(sb, fs1, i, j, b);
    var fs2 := WithWord(fs1, a, j, b);
    DataKeepsBits(sb, fs1, a, SetWord(fs1.blocks[a], j, b));
    LinkOwns(sb, fs1, fs2, i, INDIRECT + 1 + j, b);
    BblockIsMeta(sb, fs, b);
  }

  /** bmap(i, n): at most the nth block of the file and the indirect block are added. */
  ghost predicate BmapEffect(sb: Super, fs: Fs, fs': Fs, i: nat, n: nat)
    requires i < |fs.inodes| && n < MAXFILE
  {
    && Owns(sb, fs', {}, {})
    && |fs'.inodes| == |fs.inodes| && |fs'.blocks| == |fs.blocks|
    && fs'.inodes == fs.inodes[i := fs.inodes[i].(addrs := fs'.inodes[i].addrs)]
    && (forall j, l :: 0 <= j < |fs.inodes| && 0 <= l < NSLOTS && (j != i || (l != SlotOf(n) && l != INDIRECT)) ==>
          RefAt(fs', j, l) == RefAt(fs, j, l))
    && (n < NDIRECT || RefAt(fs, i, INDIRECT) != 0 ==> RefAt(fs', i, INDIRECT) == RefAt(fs, i, INDIRECT))
    && (n >= NDIRECT ==> RefAt(fs', i, INDIRECT) != 0)
    && RefAt(fs', i, SlotOf(n)) != 0
    && (RefAt(fs, i, SlotOf(n)) != 0 ==> RefAt(fs', i, SlotOf(n)) == RefAt(fs, i, SlotOf(n)))
    && DataKept(sb, fs, fs', RefAt(fs, i, INDIRECT))
  }

  lemma BmapOneStep(sb: Super, fs: Fs, fs': Fs, i: nat, n: nat)
    requires Owns(sb, fs, {}, {}) && i < |fs.inodes| && n < NDIRECT
    requires Owns(sb, fs', {}, {}) && OneSlot(fs, fs', i, n) && DataKept(sb, fs, fs', 0)
    requires RefAt(fs', i, n) != 0 && (RefAt(fs, i, n) != 0 ==> fs' == fs)
    ensures BmapEffect(sb, fs, fs', i, n)
  {
    hide RefAt, Bitmap, RefsDistinct, RefsInData;
  }

  lemma BmapTwoSteps(sb: Super, fs: Fs, fs1: Fs, fs2: Fs, i: nat, n: nat)
    requires Owns(sb, fs, {}, {}) && i < |fs.inodes| && NDIRECT <= n < MAXFILE
    requires Owns(sb, fs1, {}, {}) && OneSlot(fs, fs1, i, INDIRECT) && DataKept(sb, fs, fs1, 0)
    requires RefAt(fs, i, INDIRECT) != 0 ==> fs1 == fs
    requires RefAt(fs1, i, INDIRECT) != 0
    requires RefAt(fs, i, INDIRECT) == 0 ==> !Refd(fs, RefAt(fs1, i, INDIRECT))
    requires Owns(sb, fs2, {}, {}) && OneSlot(fs1, fs2, i, SlotOf(n)) && DataKept(sb, fs1, fs2, RefAt(fs1, i, INDIRECT))
    requires RefAt(fs2, i, SlotOf(n)) != 0 && (RefAt(fs1, i, SlotOf(n)) != 0 ==> fs2 == fs1)
    ensures BmapEffect(sb, fs, fs2, i, n)
  {
    hide RefAt, Bitmap, RefsDistinct, RefsInData;
    forall c | sb.datastart <= c < sb.size && Refd(fs, c) && c != RefAt(fs, i, INDIRECT)
      ensures fs2.blocks[c] == fs.blocks[c]
    {
      var j, l :| 0 <= j < |fs.inodes| && 0 <= l < NSLOTS && RefAt(fs, j, l) == c;
      assert RefAt(fs1, j, l) == c;
    }
  }

  // ---- file contents ----

  /** The byte at position p of the blocks reached from inode i. */
  function FileByte(fs: Fs, i: nat, p: nat): (x: Byte)
    requires i < |fs.inodes| && p / BSIZE < MAXFILE
  {
    var b := RefAt(fs, i, SlotOf(p / BSIZE));
    if b < |fs.blocks| then fs.blocks[b][p % BSIZE] else 0
  }

  function Contents(fs: Fs, i: nat): (c: seq<Byte>)
    requires i < |fs.inodes| && fs.inodes[i].size <= MAXFILE * BSIZE
    ensures |c| == fs.inodes[i].size
  {
    seq<Byte>(fs.inodes[i].size, p requires 0 <= p < fs.inodes[i].size => FileByte(fs, i, p))
  }

  function BlocksFor(size: nat): (n: nat)
  {
    (size + BSIZE - 1) / BSIZE
  }

  /** Exactly the first n file blocks of inode i are allocated, and the indirect block if they need it. */
  ghost predicate AllocTo(fs: Fs, i: nat, n: nat)
    requires i < |fs.inodes|
  {
    && n <= MAXFILE
    && (forall m :: 0 <= m < MAXFILE ==> (RefAt(fs, i, SlotOf(m)) != 0 <==> m < n))
    && (fs.inodes[i].addrs[INDIRECT] != 0 <==> n > NDIRECT)
  }

  ghost predicate WfFile(fs: Fs, i: nat)
    requires i < |fs.inodes|
  {
    fs.inodes[i].size <= MAXFILE * BSIZE && AllocTo(fs, i, BlocksFor(fs.inodes[i].size))
  }

  ghost predicate WfFs(sb: Super, fs: Fs)
  {
    && Owns(sb, fs, {}, {}) && Synced(sb, fs)
    && forall i :: 0 <= i < |fs.inodes| ==> WfFile(fs, i)
  }
}
