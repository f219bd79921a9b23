/**
  The block allocator and the inode layer of fs.c, and filewrite of file.c.
  `blocks` is the device as seen through the buffer cache; `logged` is the set of
  blocks passed to log_write in the current transaction.
 */
module FileSystem {
  import opened Blocks
  import opened Inodes
  import opened RedoLog
  import opened FileData

  /** An open file on an inode. */
  class File {
    const ip: nat
    const writable: bool
    var off: Word32

    constructor (ip: nat, writable: bool)
      ensures this.ip == ip && this.writable == writable && off == 0
    {
      this.ip, this.writable, off := ip, writable, 0;
    }
  }

  class FileSystem {
    const sb: Super
    var blocks: Disk
    var inodes: seq<Inode>
    var logged: set<nat>

    constructor (sb: Super, blocks: Disk, inodes: seq<Inode>)
      ensures this.sb == sb && this.blocks == blocks && this.inodes == inodes && logged == {}
    {
      this.sb, this.blocks, this.inodes, logged := sb, blocks, inodes, {};
    }

    ghost function S(): Fs
      reads this
    {
      Fs(blocks, inodes)
    }

    /** balloc: the first free block, marked and zeroed; false is the "out of blocks" panic. */
    method Balloc() returns (ok: bool, b: nat)
      requires WfLayout(sb, S())
      modifies this`blocks, this`logged
      ensures WfLayout(sb, S())
      ensures !ok ==> blocks == old(blocks) && logged == old(logged) && |FreeBlocks(sb, blocks)| == 0
      ensures ok ==>
                && b < sb.size && !BitAt(sb, old(blocks), b) && (forall c :: 0 <= c < b ==> BitAt(sb, old(blocks), c))
                && blocks == AllocBlock(sb, old(blocks), b)
                && logged == old(logged) + {Bblock(sb, b), b}
      ensures ChangesLogged(old(blocks), old(logged), blocks, logged)
    {
      hide Bit, SetBit;
      var base := 0;
      while base < sb.size
        invariant base % BPB == 0 && blocks == old(blocks) && logged == old(logged)
        invariant forall c :: 0 <= c < base && c < sb.size ==> BitAt(sb, blocks, c)
      {
        var bp := blocks[Bblock(sb, base)];
        var bi := 0;
        while bi < BPB && base + bi < sb.size
          invariant 0 <= bi <= BPB && blocks == old(blocks) && logged == old(logged)
          invariant forall c :: 0 <= c < base + bi && c < sb.size ==> BitAt(sb, blocks, c)
        {
          assert (base + bi) / BPB == base / BPB && (base + bi) % BPB == bi;
          if !Bit(bp, bi) {
            b := base + bi;
            blocks := blocks[Bblock(sb, base) := SetBit(bp, bi)];
            logged := logged + {Bblock(sb, base)};
            blocks := blocks[b := ZERO];
            logged := logged + {b};
            return true, b;
          }
          bi := bi + 1;
        }
        base := base + BPB;
      }
      assert FreeBlocks(sb, blocks) == {};
      return false, 0;
    }

    /** bfree, on a block whose bit is set: a clear bit is the "freeing free block" panic. */
    method Bfree(b: nat)
      requires WfLayout(sb, S()) && b < sb.size && BitAt(sb, blocks, b)
      modifies this`blocks, this`logged
      ensures WfLayout(sb, S()) && blocks == FreeBlock(sb, old(blocks), b)
      ensures logged == old(logged) + {Bblock(sb, b)}
      ensures ChangesLogged(old(blocks), old(logged), blocks, logged)
    {
      hide Bit, ClearBit;
      var bp := blocks[Bblock(sb, b)];
      blocks := blocks[Bblock(sb, b) := ClearBit(bp, b % BPB)];
      logged := logged + {Bblock(sb, b)};
    }

    /** The slot of inode i that a bmap step may fill, and what it logs. */
    method EnsureAddr(i: nat, k: nat) returns (ok: bool, addr: nat)
      requires Owns(sb, S(), {}, {}) && i < |inodes| && k <= INDIRECT
      modifies this
      ensures ok ==> |FreeBlocks(sb, blocks)| + (if old(inodes[i].addrs[k]) == 0 then 1 else 0)
                     == |FreeBlocks(sb, old(blocks))|
      ensures !ok ==> |FreeBlocks(sb, old(blocks))| == 0
      ensures ok ==>
                && Owns(sb, S(), {}, {}) && OneSlot(old(S()), S(), i, k) && DataKept(sb, old(S()), S(), 0)
                && inodes[i].addrs[k] == addr == RefAt(S(), i, k) && addr != 0
      ensures old(inodes[i].addrs[k]) != 0 ==> ok && S() == old(S()) && logged == old(logged)
      ensures ok && old(inodes[i].addrs[k]) == 0 ==>
                && !Refd(old(S()), addr) && blocks[addr] == ZERO
                && logged == old(logged) + {Bblock(sb, addr), addr}
      ensures ChangesLogged(old(blocks), old(logged), blocks, logged)
      ensures ok ==> OwnChanges(sb, old(S()), S(), i)
    {
      hide BitAt, RefAt, RefsDistinct, Bitmap, FreeBlocks;
      addr := inodes[i].addrs[k];
      assert RefAt(S(), i, k) == addr by { AddrSlot(S(), i, k); }
      OwnSame(sb, S(), i);
      if addr == 0 {
        ok, addr := Balloc();
        if !ok {
          return;
        }
        LinkAddr(sb, old(S()), i, k, addr);
        AllocTakesOne(sb, old(S()), addr);
        inodes := inodes[i := inodes[i].(addrs := inodes[i].addrs[k := addr])];
        assert S() == WithAddr(old(S()).(blocks := AllocBlock(sb, old(blocks), addr)), i, k, addr);
        InData(sb, S(), i, k);
        OwnLink(sb, old(S()), S(), i, k, addr, 0);
      }
      return true, addr;
    }

    /** The second half of bmap for an indirect block: entry j of the block that addrs[NDIRECT] names. */
    method EnsureWord(i: nat, j: nat) returns (ok: bool, addr: nat)
      requires Owns(sb, S(), {}, {}) && i < |inodes| && j < NINDIRECT && inodes[i].addrs[INDIRECT] != 0
      modifies this
      ensures ok ==> |FreeBlocks(sb, blocks)| + (if RefAt(old(S()), i, INDIRECT + 1 + j) == 0 then 1 else 0)
                     == |FreeBlocks(sb, old(blocks))|
      ensures !ok ==> |FreeBlocks(sb, old(blocks))| == 0
      ensures ok ==>
                && Owns(sb, S(), {}, {}) && OneSlot(old(S()), S(), i, INDIRECT + 1 + j)
                && DataKept(sb, old(S()), S(), old(inodes[i].addrs[INDIRECT]))
                && addr == RefAt(S(), i, INDIRECT + 1 + j) && addr != 0
      ensures RefAt(old(S()), i, INDIRECT + 1 + j) != 0 ==> ok && S() == old(S()) && logged == old(logged)
      ensures ok && RefAt(old(S()), i, INDIRECT + 1 + j) == 0 ==>
                && !Refd(old(S()), addr) && blocks[addr] == ZERO && inodes == old(inodes)
                && logged == old(logged) + {Bblock(sb, addr), addr, inodes[i].addrs[INDIRECT]}
      ensures ChangesLogged(old(blocks), old(logged), blocks, logged)
      ensures ok ==> OwnChanges(sb, old(S()), S(), i)
    {
      hide BitAt, RefsDistinct, Bitmap, Word, SetWord, FreeBlocks, OwnChanges;
      var a := inodes[i].addrs[INDIRECT];
      assert RefAt(S(), i, INDIRECT) == a by { AddrSlot(S(), i, INDIRECT); }
      OwnSame(sb, S(), i);
      addr := Word(blocks[a], j);
      assert RefAt(S(), i, INDIRECT + 1 + j) == addr;
      if addr == 0 {
        ok, addr := Balloc();
        if !ok {
          return;
        }
        LinkWord(sb, old(S()), i, j, addr);
        WordFilled(sb, old(S()), i, j, addr, old(logged));
        blocks := blocks[a := SetWord(blocks[a], j, addr)];
        logged := logged + {a};
        assert S() == WithWord(old(S()).(blocks := AllocBlock(sb, old(blocks), addr)), a, j, addr);
        assert logged == old(logged) + {Bblock(sb, addr), addr, a};
      }
      return true, addr;
    }

    /** bmap: the disk block of the nth block of the file, allocating it if necessary. */
    method Bmap(i: nat, n: nat) returns (ok: bool, addr: nat, ghost maps: set<nat>)
      requires Owns(sb, S(), {}, {}) && i < |inodes| && n < MAXFILE
      modifies this
      ensures ok <==> BmapCost(old(S()), i, n) <= |FreeBlocks(sb, old(blocks))|
      ensures ok ==> |FreeBlocks(sb, blocks)| + BmapCost(old(S()), i, n) == |FreeBlocks(sb, old(blocks))|
      ensures ok ==>
                && BmapEffect(sb, old(S()), S(), i, n) && addr == RefAt(S(), i, SlotOf(n))
                && (RefAt(old(S()), i, SlotOf(n)) == 0 ==> blocks[addr] == ZERO)
                && logged <= old(logged) + maps + {addr} + (if n < NDIRECT then {} else {RefAt(S(), i, INDIRECT)})
                && |maps| <= (if RefAt(old(S()), i, SlotOf(n)) == 0 then 1 else 0)
                             + (if n >= NDIRECT && RefAt(old(S()), i, INDIRECT) == 0 then 1 else 0)
      ensures RefAt(old(S()), i, SlotOf(n)) != 0 && (n < NDIRECT || RefAt(old(S()), i, INDIRECT) != 0) ==>
                ok && S() == old(S()) && logged == old(logged)
      ensures ChangesLogged(old(blocks), old(logged), blocks, logged)
      ensures ok ==> OwnChanges(sb, old(S()), S(), i)
    {
      hide BitAt, RefAt, RefsDistinct, RefsInData, Bitmap, WfLayout, ChangesLogged, OwnChanges, FreeBlocks;
      ghost var s0, l0 := S(), logged;
      maps, addr := {}, 0;
      AddrSlot(s0, i, INDIRECT);
      if n < NDIRECT {
        AddrSlot(s0, i, n);
        ok, addr := EnsureAddr(i, n);
        if ok {
          BmapOneStep(sb, s0, S(), i, n);
          maps := if RefAt(s0, i, n) == 0 then {Bblock(sb, addr)} else {};
        }
        return;
      }
      var ind;
      ok, ind := EnsureAddr(i, INDIRECT);
      if !ok {
        return;
      }
      ghost var s1, l1 := S(), logged;
      if RefAt(s0, i, INDIRECT) == 0 {
        maps := maps + {Bblock(sb, ind)};
      }
      ok, addr := EnsureWord(i, n - NDIRECT);
      ChangesAgain(s0.blocks, l0, s1.blocks, l1, blocks, logged);
      if !ok {
        return;
      }
      if RefAt(s1, i, SlotOf(n)) == 0 {
        maps := maps + {Bblock(sb, addr)};
      }
      BmapTwoSteps(sb, s0, s1, S(), i, n);
      OwnAgain(sb, s0, s1, S(), i);
    }

    /** One iteration of writei's loop: write piece at pos, which lies in or just after the allocated blocks. */
    method WriteStep(i: nat, pos: nat, piece: seq<Byte>, ghost ms: seq<nat>)
      returns (ok: bool, ghost addr: nat, ghost maps: set<nat>)
      requires Owns(sb, S(), {}, {}) && Alloc(S(), ms) && i < |ms|
      requires pos % BSIZE + |piece| <= BSIZE && pos / BSIZE <= ms[i] && pos / BSIZE < MAXFILE
      modifies this
      ensures var cost := SlotsFor(Max(ms[i], pos / BSIZE + 1)) - SlotsFor(ms[i]);
              && (ok <==> cost <= |FreeBlocks(sb, old(blocks))|)
              && (ok ==> |FreeBlocks(sb, blocks)| + cost == |FreeBlocks(sb, old(blocks))|)
      ensures ok ==> |inodes| == old(|inodes|) && PieceWritten(sb, old(S()), S(), ms, i, pos, piece)
      ensures ok ==>
                && logged <= old(logged) + maps + {addr} + IndirectSet(S(), i)
                && |maps| <= (if pos / BSIZE < ms[i] then 0 else 1)
                             + (if RefAt(old(S()), i, INDIRECT) == 0 != RefAt(S(), i, INDIRECT) then 1 else 0)
                && (RefAt(old(S()), i, INDIRECT) != 0 ==> RefAt(S(), i, INDIRECT) == RefAt(old(S()), i, INDIRECT))
      ensures ChangesLogged(old(blocks), old(logged), blocks, logged)
      ensures ok ==> OwnChanges(sb, old(S()), S(), i)
    {
      hide BitAt, RefAt, RefsDistinct, RefsInData, Bitmap, FileByte, PieceWritten, Splice, OwnChanges, FreeBlocks,
           BmapCost, SlotsFor, ChangesLogged, AllocTo, Owns, SameRefs, BmapEffect;
      ghost var s0 := S();
      var n := pos / BSIZE;
      var b;
      assert AllocTo(s0, i, ms[i]);
      AddrSlot(s0, i, INDIRECT);
      BmapCostIs(s0, i, ms[i], n);
      ok, b, maps := Bmap(i, n);
      addr := b;
      if !ok {
        return;
      }
      ghost var s1 := S();
      BmapFacts(sb, s0, s1, i, n);
      PieceDone(sb, s0, s1, ms, i, pos, piece);
      blocks := blocks[b := Splice(blocks[b], pos % BSIZE, piece)];
      PieceStored(sb, s0, s1, S(), i, SlotOf(n), blocks[b], old(logged), logged);
      logged := logged + {b};
    }

    /** The writei loop, with the blocks it logs: data blocks D, bitmap blocks M and the indirect block. */
    method WriteLoop(i: nat, src: seq<Byte>, off: nat) returns (ok: bool, ghost D: set<nat>, ghost M: set<nat>)
      requires WfFs(sb, S()) && i < |inodes| && off <= inodes[i].size && off + |src| <= MAXFILE * BSIZE
      modifies this
      ensures ok <==> WriteCost(old(inodes[i].size), off + |src|) <= |FreeBlocks(sb, old(blocks))|
      ensures ok ==>
                |FreeBlocks(sb, blocks)| + WriteCost(old(inodes[i].size), off + |src|) == |FreeBlocks(sb, old(blocks))|
      ensures ok ==> Writing(sb, old(S()), S(), i, off, src, |src|)
      ensures ok ==> LogsWithin(old(S()), S(), old(logged), logged, i, off, |src|, D, M)
      ensures ok ==> OwnChanges(sb, old(S()), S(), i)
      ensures ChangesLogged(old(blocks), old(logged), blocks, logged)
    {
      hide BitAt, RefAt, FileByte, Owns, Synced, BlocksFor, BytesKept, PieceWritten, LogsWithin, ChangesLogged,
           OwnChanges, FreeBlocks, WriteCost, SlotsFor;
      ChangesNone(blocks, logged);
      OwnSame(sb, S(), i);
      ghost var s0, l0 := S(), logged;
      ghost var ms0 := Sizes(inodes);
      assert Writing(sb, s0, s0, i, off, src, 0) by { WritingStart(sb, s0, i, off, src); }
      NoCost(inodes[i].size, off);
      var tot := 0;
      ok, D, M := true, {}, {};
      assert LogsWithin(s0, s0, l0, l0, i, off, 0, {}, {}) by { LogsStart(s0, l0, i, off); }
      while tot < |src|
        invariant 0 <= tot <= |src| && Writing(sb, s0, S(), i, off, src, tot)
        invariant tot == 0 || tot == |src| || (off + tot) % BSIZE == 0
        invariant LogsWithin(s0, S(), l0, logged, i, off, tot, D, M)
        invariant |FreeBlocks(sb, blocks)| + WriteCost(s0.inodes[i].size, off + tot) == |FreeBlocks(sb, s0.blocks)|
        invariant ChangesLogged(s0.blocks, l0, blocks, logged) && |s0.inodes| == |inodes| && OwnChanges(sb, s0, S(), i)
        decreases |src| - tot
      {
        var pos := off + tot;
        var m := if |src| - tot < BSIZE - pos % BSIZE then |src| - tot else BSIZE - pos % BSIZE;
        ghost var ms := ms0[i := Max(ms0[i], BlocksFor(pos))];
        ghost var addr, maps;
        ghost var s1, l1 := S(), logged;
        PieceBlocks(pos, m);
        CostStep(s0.inodes[i].size, pos, m);
        CostMono(s0.inodes[i].size, pos + m, off + |src|);
        ok, addr, maps := WriteStep(i, pos, src[tot..tot + m], ms);
        ChangesAgain(s0.blocks, l0, s1.blocks, l1, blocks, logged);
        if !ok {
          return;
        }
        WritingStep(sb, s0, s1, S(), i, off, src, tot, m);
        OwnAgain(sb, s0, s1, S(), i);
        LogsStep(s0, s1, S(), l0, l1, logged, i, off, tot, m, D, M, addr, maps);
        D, M := D + {addr}, M + maps;
        tot := tot + m;
      }
    }

    /** iupdate */
    method Iupdate(i: nat, ghost ms: seq<nat>)
      requires Owns(sb, S(), {}, {}) && Alloc(S(), ms) && i < |inodes|
      modifies this`blocks, this`logged
      ensures |blocks| == old(|blocks|) && Owns(sb, S(), {}, {}) && SameRefs(old(S()), S()) && Alloc(S(), ms)
              && SyncedAt(sb, S(), i)
      ensures forall j :: 0 <= j < |inodes| && j != i && SyncedAt(sb, old(S()), j) ==> SyncedAt(sb, S(), j)
      ensures forall b :: sb.bmapstart <= b < sb.size ==> blocks[b] == old(blocks)[b]
      ensures logged == old(logged) + {Iblock(sb, i)} && forall b :: 0 <= b < |blocks| && b != Iblock(sb, i) ==>
              blocks[b] == old(blocks)[b]
      ensures Iblock(sb, i) < |blocks|
              && blocks[Iblock(sb, i)] == PutDinode(old(blocks)[Iblock(sb, i)], i % IPB, inodes[i])
    {
      hide Bit, GetDinode, PutDinode, RefAt, Bitmap;
      IupdateEffect(sb, S(), ms, i);
      var c := Iblock(sb, i);
      blocks := blocks[c := PutDinode(blocks[c], i % IPB, inodes[i])];
      logged := logged + {c};
    }

    /** The end of writei: a longer file has its new size stored, also on disk. */
    method Lengthen(i: nat, size: Word32, ghost ms: seq<nat>)
      requires Owns(sb, S(), {}, {}) && Alloc(S(), ms) && i < |inodes|
      modifies this
      ensures Lengthened(sb, old(S()), S(), i, size, ms)
      ensures logged == old(logged) + {Iblock(sb, i)}
    {
      hide SyncedAt, PutDinode, RefAt, AllocTo, RefsDistinct, RefsInData, Bitmap;
      WithSizeSame(sb, S(), ms, i, size);
      inodes := inodes[i := inodes[i].(size := size)];
      Iupdate(i, ms);
    }

    /** writei on a plain file. False is the "out of blocks" panic; -1 is writei's error return. */
    method Writei(i: nat, src: seq<Byte>, off: Word32) returns (ok: bool, r: int)
      requires WfFs(sb, S()) && i < |inodes| && |src| <= UINT_MAX
      modifies this
      ensures !ok <==> && off <= old(inodes[i].size) && off + |src| <= MAXFILE * BSIZE
                       && WriteCost(old(inodes[i].size), off + |src|) > |FreeBlocks(sb, old(blocks))|
      ensures ok && r != -1 ==>
                |FreeBlocks(sb, blocks)| + WriteCost(old(inodes[i].size), off + |src|) == |FreeBlocks(sb, old(blocks))|
      ensures ok ==> (r == -1 <==> off > old(inodes[i].size) || off + |src| > UINT_MAX || off + |src| > MAXFILE * BSIZE)
      ensures ok && r == -1 ==> S() == old(S()) && logged == old(logged)
      ensures ok && r != -1 ==> r == |src| && Written(sb, old(S()), S(), i, off, src) && Footprint(sb, old(S()), S(), i)
      ensures ok && |src| <= CHUNK ==> |logged| <= |old(logged)| + MAXOPBLOCKS
      ensures ChangesLogged(old(blocks), old(logged), blocks, logged)
      ensures ok ==> forall c :: 0 <= c < sb.inodestart && c < |blocks| ==> blocks[c] == old(blocks)[c]
      ensures ok && r != -1 && |src| <= CHUNK && old(logged) == {} ==>
              ChunkLogged(sb, old(S()), S(), Chunk(i, off, src), logged)
    {
      hide BitAt, RefAt, FileByte, Owns, BytesKept, LogsWithin, AllocTo, SyncedAt, BlocksFor, ChangesLogged,
           ChunkLogged, Written, Writing, OwnChanges, Footprint, Lengthened, WfFile, Synced, FreeBlocks,
           WriteCost, Alloc, Bblock;
      ChangesNone(blocks, logged);
      var sum := (off + |src|) % 0x1_0000_0000;
      if off > inodes[i].size || sum < off {
        return true, -1;
      }
      if sum > MAXFILE * BSIZE {
        return true, -1;
      }
      ghost var s0, l0 := S(), logged;
      LogFirst(sb, s0);
      ghost var D, M;
      ok, D, M := WriteLoop(i, src, off);
      r := |src|;
      if !ok {
        return;
      }
      ghost var s1, l1 := S(), logged;
      assert logged + {} == logged;
      LogKept(sb, s0, s1, i, off, src);
      WritingFacts(sb, s0, s1, i, off, src);
      if |src| <= CHUNK {
        ChunkBound(s0, s1, l0, l1, i, off, |src|, D, M, {});
        ChunkBound(s0, s1, l0, l1, i, off, |src|, D, M, {Iblock(sb, i)});
      }
      if |src| > 0 && off + |src| > inodes[i].size {
        ghost var ms := Sizes(s0.inodes)[i := BlocksFor(off + |src|)];
        BlocksMono(s0.inodes[i].size, off + |src|);
        Lengthen(i, off + |src|, ms);
        LengthenDone(sb, s0, s1, S(), l0, l1, i, off, src);
      } else {
        DoneWithin(sb, s0, s1, i, off, src);
        WriteiFootprint(sb, s0, s1, S(), i, off, src);
      }
      if l0 == {} && |src| <= CHUNK { ChunkDone(sb, s0, S(), Chunk(i, off, src), logged); }
    }

    /** One iteration of readi's loop. */
    method ReadStep(i: nat, pos: nat, m: nat) returns (piece: seq<Byte>)
      requires WfFs(sb, S()) && i < |inodes| && WfFile(S(), i)
      requires 1 <= m && pos + m <= inodes[i].size && pos % BSIZE + m <= BSIZE
      modifies this
      ensures S() == old(S()) && logged == old(logged)
      ensures piece == Contents(S(), i)[pos..pos + m]
    {
      hide BitAt, RefAt, Owns, BmapEffect, SyncedAt, Contents, AllocTo;
      ghost var s0 := S();
      ReadableBlock(s0, i, pos);
      var ok, b;
      ghost var maps;
      ok, b, maps := Bmap(i, pos / BSIZE);
      SlotInRange(sb, s0, i, SlotOf(pos / BSIZE));
      ReadPiece(s0, i, pos, m);
      piece := blocks[b][pos % BSIZE..pos % BSIZE + m];
    }

    /** readi on a plain file: the bytes of the file from off on, and nothing is allocated or logged. */
    method Readi(i: nat, off: Word32, n: Word32) returns (r: int, dst: seq<Byte>)
      requires WfFs(sb, S()) && i < |inodes|
      modifies this
      ensures S() == old(S()) && logged == old(logged) && WfFile(S(), i)
      ensures r == -1 <==> off > inodes[i].size || off + n > UINT_MAX
      ensures r == -1 ==> dst == []
      ensures r != -1 ==>
                && r == |dst|
                && dst == Contents(S(), i)[off..if off + n > inodes[i].size then inodes[i].size else off + n]
    {
      hide WfFs, AllocTo, FileByte, Contents;
      WfFileOf(sb, S(), i);
      dst := [];
      var sum := (off + n) % 0x1_0000_0000;
      if off > inodes[i].size || sum < off {
        return -1, [];
      }
      var len := if sum > inodes[i].size then inodes[i].size - off else n as nat;
      ghost var s0 := S();
      ghost var c := Contents(s0, i);
      var tot := 0;
      while tot < len
        invariant 0 <= tot <= len && S() == s0 && logged == old(logged)
        invariant dst == c[off..off + tot]
        decreases len - tot
      {
        var pos := off + tot;
        var m := if len - tot < BSIZE - pos % BSIZE then len - tot else BSIZE - pos % BSIZE;
        var piece := ReadStep(i, pos, m);
        dst := dst + piece;
        SliceJoin(c, off, pos, pos + m);
        tot := tot + m;
      }
      r := len;
    }

    /** One slot of itrunc: slot k of the inode, as it was in fs0, is freed if it led anywhere. */
    method FreeIfSet(b: nat, ghost fs0: Fs, ghost i: nat, ghost k: nat, ghost K: set<nat>)
      requires WfLayout(sb, S()) && Owns(sb, fs0, {}, {}) && i < |fs0.inodes| && k < NSLOTS && k !in K
      requires Freed(sb, fs0, blocks, i, K) && b == RefAt(fs0, i, k)
      modifies this`blocks, this`logged
      ensures WfLayout(sb, S()) && Freed(sb, fs0, blocks, i, K + {k})
      ensures logged == old(logged) + if b == 0 then {} else {Bblock(sb, b)}
      ensures ChangesLogged(old(blocks), old(logged), blocks, logged)
    {
      hide RefAt, BitAt, Freed;
      if b != 0 {
        FreeSlot(sb, fs0, blocks, i, K, k);
        Bfree(b);
      } else {
        SkipSlot(sb, fs0, blocks, i, K, k);
      }
    }

    /** The first loop of itrunc: the direct blocks. */
    method FreeDirect(i: nat) returns (ghost K: set<nat>)
      requires Owns(sb, S(), {}, {}) && i < |inodes|
      modifies this
      ensures WfLayout(sb, S()) && Freed(sb, old(S()), blocks, i, K) && |inodes| == old(|inodes|)
      ensures forall k :: k in K <==> 0 <= k < NDIRECT
      ensures inodes == old(inodes)[i := old(inodes)[i].(addrs := inodes[i].addrs)]
      ensures inodes[i].addrs[INDIRECT] == old(inodes)[i].addrs[INDIRECT]
      ensures forall k :: 0 <= k < NDIRECT ==> inodes[i].addrs[k] == 0
      ensures logged == old(logged) + MapBlocks(sb, old(S()), i, K)
      ensures ChangesLogged(old(blocks), old(logged), blocks, logged)
    {
      hide RefAt, BitAt, Freed, MapBlocks, ChangesLogged;
      NoMapBlocks(sb, S(), i);
      ChangesNone(blocks, logged);
      ghost var fs0 := S();
      K := {};
      FreedNothing(sb, fs0, i);
      var t := 0;
      while t < NDIRECT
        invariant 0 <= t <= NDIRECT && WfLayout(sb, S()) && |inodes| == |fs0.inodes|
        invariant Freed(sb, fs0, blocks, i, K) && forall k :: k in K <==> 0 <= k < t
        invariant inodes == fs0.inodes[i := fs0.inodes[i].(addrs := inodes[i].addrs)]
        invariant forall k :: 0 <= k <= NDIRECT ==> inodes[i].addrs[k] == if k < t then 0 else fs0.inodes[i].addrs[k]
        invariant logged == old(logged) + MapBlocks(sb, fs0, i, K)
        invariant ChangesLogged(old(blocks), old(logged), blocks, logged)
      {
        ghost var b1, l1 := blocks, logged;
        MapMore(sb, fs0, i, K, t);
        AddrSlot(fs0, i, t);
        var b := inodes[i].addrs[t];
        FreeIfSet(b, fs0, i, t, K);
        ChangesAgain(old(blocks), old(logged), b1, l1, blocks, logged);
        if b != 0 {
          inodes := inodes[i := inodes[i].(addrs := inodes[i].addrs[t := 0])];
        }
        K := K + {t};
        t := t + 1;
      }
    }

    /** The second loop of itrunc: the blocks listed in the indirect block at address a. */
    method FreeListed(i: nat, a: nat, ghost fs0: Fs, ghost K0: set<nat>) returns (ghost K: set<nat>)
      requires WfLayout(sb, S()) && Owns(sb, fs0, {}, {}) && i < |fs0.inodes| && a == fs0.inodes[i].addrs[INDIRECT] != 0
      requires Freed(sb, fs0, blocks, i, K0) && MapBlocks(sb, fs0, i, K0) <= logged && forall k :: k in K0 <==>
               0 <= k < NDIRECT
      modifies this`blocks, this`logged
      ensures WfLayout(sb, S()) && Freed(sb, fs0, blocks, i, K)
      ensures forall k :: k in K <==> (0 <= k < NDIRECT || INDIRECT < k < NSLOTS)
      ensures logged == old(logged) + MapBlocks(sb, fs0, i, K)
      ensures ChangesLogged(old(blocks), old(logged), blocks, logged)
    {
      hide BitAt, Freed, Word, MapBlocks, ChangesLogged;
      ChangesNone(blocks, logged);
      AddrSlot(fs0, i, INDIRECT);
      K := K0;
      var j := 0;
      assert sb.datastart <= a < sb.size && |blocks| == sb.size;
      while j < NINDIRECT
        invariant 0 <= j <= NINDIRECT && WfLayout(sb, S()) && Freed(sb, fs0, blocks, i, K)
        invariant forall k :: k in K <==> (0 <= k < NDIRECT || INDIRECT < k < INDIRECT + 1 + j)
        invariant logged == old(logged) + MapBlocks(sb, fs0, i, K)
        invariant ChangesLogged(old(blocks), old(logged), blocks, logged)
      {
        ghost var b1, l1 := blocks, logged;
        MapMore(sb, fs0, i, K, INDIRECT + 1 + j);
        assert blocks[a] == fs0.blocks[a] by { FreedKeeps(sb, fs0, blocks, i, K, a); }
        FreeIfSet(Word(blocks[a], j), fs0, i, INDIRECT + 1 + j, K);
        ChangesAgain(old(blocks), old(logged), b1, l1, blocks, logged);
        K := K + {INDIRECT + 1 + j};
        j := j + 1;
      }
    }

    /** The two loops of itrunc and its indirect block. */
    method FreeAll(i: nat)
      requires WfFs(sb, S()) && i < |inodes|
      modifies this
      ensures WfLayout(sb, S()) && Freed(sb, old(S()), blocks, i, AllSlots()) && |inodes| == old(|inodes|)
      ensures inodes == old(inodes)[i := old(inodes)[i].(addrs := Emptied(old(inodes)[i]).addrs)]
      ensures logged == old(logged) + MapBlocks(sb, old(S()), i, AllSlots())
      ensures ChangesLogged(old(blocks), old(logged), blocks, logged)
    {
      hide MapBlocks, ChangesLogged, RefAt, BitAt, Freed, Bitmap, RefsDistinct, RefsInData;
      ghost var fs0 := S();
      AddrSlot(fs0, i, INDIRECT);
      ghost var K := FreeDirect(i);
      var a := inodes[i].addrs[INDIRECT];
      if a != 0 {
        ghost var direct, b1, l1 := K, blocks, logged;
        K := FreeListed(i, a, fs0, K);
        ChangesAgain(fs0.blocks, old(logged), b1, l1, blocks, logged);
        b1, l1 := blocks, logged;
        MapMono(sb, fs0, i, direct, K);
        MapMore(sb, fs0, i, K, INDIRECT);
        FreeIfSet(a, fs0, i, INDIRECT, K);
        ChangesAgain(fs0.blocks, old(logged), b1, l1, blocks, logged);
        K := K + {INDIRECT};
        inodes := inodes[i := inodes[i].(addrs := inodes[i].addrs[INDIRECT := 0])];
      } else {
        RestEmpty(sb, fs0, blocks, i, K);
        MapRest(sb, fs0, i, K);
        K := AllSlots();
      }
      assert K == AllSlots();
      assert inodes[i].addrs == Emptied(fs0.inodes[i]).addrs;
    }

    /** itrunc: frees exactly the blocks of the inode and never meets the "freeing free block" panic. */
    method Itrunc(i: nat)
      requires WfFs(sb, S()) && i < |inodes|
      modifies this
      ensures TruncatedTo(sb, old(S()), S(), i) && Footprint(sb, old(S()), S(), i)
      ensures logged == old(logged) + MapBlocks(sb, old(S()), i, AllSlots()) + {Iblock(sb, i)}
      ensures ChangesLogged(old(blocks), old(logged), blocks, logged)
      ensures old(logged) == {} && |MapBlocks(sb, old(S()), i, AllSlots())| < MAXOPBLOCKS ==>
              TruncLogged(sb, old(S()), S(), i, logged)
    {
      hide MapBlocks, ChangesLogged, Footprint, PutDinode, RefAt, BitAt, Freed, SyncedAt, AllocTo, Bitmap,
           RefsDistinct, RefsInData, TruncatedTo, TruncLogged;
      ghost var fs0 := S();
      ghost var ms := Sizes(inodes);
      WfAlloc(sb, fs0);
      FreeAll(i);
      inodes := inodes[i := inodes[i].(size := 0)];
      ghost var fs1, l2 := S(), logged;
      TruncOwns(sb, fs0, fs1, ms, i);
      Iupdate(i, ms[i := 0]);
      ChangedInode(fs0.blocks, old(logged), fs1.blocks, l2, blocks, logged, Iblock(sb, i));
      TruncDone(sb, fs0, fs1, S(), i);
      TruncFootprint(sb, fs0, fs1, S(), i);
      if old(logged) == {} && |MapBlocks(sb, fs0, i, AllSlots())| < MAXOPBLOCKS {
        TruncLoggedIs(sb, fs0, S(), i, logged);
      }
    }

    /**
      filewrite: the chunks make up one write of the first `done` bytes of src, all of them exactly
      when the write fits the file; each chunk is a transaction that logs at most MAXOPBLOCKS blocks.
      False is the "out of blocks" panic.
     */
    method Filewrite(f: File, src: seq<Byte>)
      returns (ok: bool, r: int, ghost done: nat, ghost states: seq<Fs>, ghost chunks: seq<Chunk>,
          ghost logs: seq<set<nat>>)
      requires WfFs(sb, S()) && f.ip < |inodes|
      modifies this, f
      ensures !ok <==> && f.writable && old(f.off) <= old(inodes[f.ip].size)
                       && WriteCost(old(inodes[f.ip].size), old(f.off) + Accepted(old(f.off), |src|))
                          > |FreeBlocks(sb, old(blocks))|
      ensures !f.writable ==> ok && r == -1 && done == 0 && S() == old(S())
      ensures ok && f.writable ==>
                && done == Doable(old(S()), f.ip, old(f.off), |src|) <= |src|
                && f.off == old(f.off) + done && r == (if done == |src| then |src| else -1)
                && (old(f.off) <= old(inodes[f.ip].size) ==> Written(sb, old(S()), S(), f.ip, old(f.off), src[..done]))
                && (old(f.off) > old(inodes[f.ip].size) ==> S() == old(S()))
                && (done == |src| <==>
                     src == [] || (old(f.off) <= old(inodes[f.ip].size) && old(f.off) + |src| <= MAXFILE * BSIZE))
      ensures ok ==> ChunkPath(sb, states, chunks, logs) && states[0] == old(S()) && states[|chunks|] == S()
    {
      hide WfFs, Written, BitAt, ChunkLogged, FreeBlocks, WriteCost, Accepted, Doable, Footprint, ChangesLogged,
           Sofar;
      ok, r, done, states, chunks, logs := true, -1, 0, [S()], [], [];
      if !f.writable {
        return;
      }
      ghost var s0, off0 := S(), f.off;
      var ip := f.ip;
      SofarStart(sb, s0, ip, off0, src);
      var i := 0;
      ghost var n: nat := 0;
      while i < |src|
        invariant 0 <= i <= |src| && done == i && f.off == off0 + i && Sofar(sb, s0, S(), ip, off0, src, i)
        invariant ChunkPath(sb, states, chunks, logs) && states[0] == s0 && states[|chunks|] == S()
        decreases |src| - i
      {
        var n1 := if |src| - i > CHUNK then CHUNK else |src| - i;
        SofarFacts(sb, s0, S(), ip, off0, src, i);
        logged := {};                                       // begin_op
        ghost var s1 := S();
        n := n1;
        var w;
        ok, w := Writei(ip, src[i..i + n1], f.off);
        if !ok {
          SofarFull(sb, s0, s1, ip, off0, src, i, n1);
          return;
        }
        if w < 0 {                                          // end_op
          break;
        }
        PathMore(sb, states, chunks, logs, S(), Chunk(ip, f.off, src[i..i + n1]), logged);
        states, chunks, logs := states + [S()], chunks + [Chunk(ip, f.off, src[i..i + n1])], logs + [logged];
        SofarChunk(sb, s0, s1, S(), ip, off0, src, i, n1);
        f.off := f.off + w;
        i := i + w;
        done := i;
      }
      SofarEnds(sb, s0, S(), ip, off0, src, i, n);
      r := if i == |src| then |src| else -1;
    }
  }
}
