/** What the inode-layer steps do to the contents of files, to the free map and to the on-disk inodes. */
module FileData {
  import opened Blocks
  import opened Inodes
  import opened Finite
  import opened RedoLog

  /** The most that filewrite passes to one writei. */
  const CHUNK: nat := ((MAXOPBLOCKS - 1 - 1 - 2) / 2) * 512

  /** File j has exactly its first ms[j] blocks allocated. */
  ghost predicate Alloc(fs: Fs, ms: seq<nat>)
  {
    |ms| == |fs.inodes| && forall j :: 0 <= j < |ms| ==> AllocTo(fs, j, ms[j])
  }

  /** Every allocated byte of every file keeps its value, except that bytes lo..hi of file i may change. */
  ghost predicate BytesKept(fs: Fs, fs': Fs, ms: seq<nat>, i: nat, lo: nat, hi: nat)
    requires |ms| == |fs.inodes| == |fs'.inodes|
  {
    forall j, p :: 0 <= j < |ms| && 0 <= p && p / BSIZE < ms[j] && p / BSIZE < MAXFILE && !(j == i && lo <= p < hi) ==>
      FileByte(fs', j, p) == FileByte(fs, j, p)
  }

  function Max(a: nat, b: nat): (c: nat)
  {
    if a < b then b else a
  }

  lemma BmapAlloc(sb: Super, fs: Fs, fs': Fs, ms: seq<nat>, i: nat, n: nat)
    requires Owns(sb, fs, {}, {}) && Alloc(fs, ms) && i < |ms| && n <= ms[i] && n < MAXFILE
    requires BmapEffect(sb, fs, fs', i, n)
    ensures Alloc(fs', ms[i := Max(ms[i], n + 1)])
  {
    hide RefAt, Bitmap, RefsDistinct, RefsInData, DataKept;
    var ms' := ms[i := Max(ms[i], n + 1)];
    forall j | 0 <= j < |ms| ensures AllocTo(fs', j, ms'[j]) {
      AddrSlot(fs, j, INDIRECT);
      AddrSlot(fs', j, INDIRECT);
      assert AllocTo(fs, j, ms[j]);
    }
  }

  lemma BmapBytes(sb: Super, fs: Fs, fs': Fs, ms: seq<nat>, i: nat, n: nat)
    requires Owns(sb, fs, {}, {}) && Alloc(fs, ms) && i < |ms| && n <= ms[i] && n < MAXFILE
    requires BmapEffect(sb, fs, fs', i, n)
    ensures BytesKept(fs, fs', ms, i, 0, 0)
  {
    hide RefAt, Bitmap;
    forall j, p | 0 <= j < |ms| && 0 <= p && p / BSIZE < ms[j] && p / BSIZE < MAXFILE
      ensures FileByte(fs', j, p) == FileByte(fs, j, p)
    {
      var k := SlotOf(p / BSIZE);
      assert AllocTo(fs, j, ms[j]);
      assert RefAt(fs, j, k) != 0;
      assert Refd(fs, RefAt(fs, j, k));
      assert RefAt(fs', j, k) == RefAt(fs, j, k);
    }
  }

  /** Replacing the data of one file block moves no slot, no bit and no other byte. */
  lemma StoreBlock(sb: Super, fs: Fs, ms: seq<nat>, i: nat, n: nat, x: Block)
    requires Owns(sb, fs, {}, {}) && Alloc(fs, ms) && i < |ms| && n < ms[i]
    ensures var b := RefAt(fs, i, SlotOf(n));
            && b < |fs.blocks| && sb.datastart <= b
            && var fs' := fs.(blocks := fs.blocks[b := x]);
               Owns(sb, fs', {}, {}) && SameRefs(fs, fs') && Alloc(fs', ms)
                   && BytesKept(fs, fs', ms, i, n * BSIZE, (n + 1) * BSIZE)
  {
    hide Bit;
    var b := RefAt(fs, i, SlotOf(n));
    assert AllocTo(fs, i, ms[i]);
    var fs' := fs.(blocks := fs.blocks[b := x]);
    StoreSlots(sb, fs, i, SlotOf(n), x);
    SameRefsOwn(sb, fs, fs');
    forall c | 0 <= c < sb.size ensures BitAt(sb, fs'.blocks, c) == BitAt(sb, fs.blocks, c) {
      BblockIsMeta(sb, fs, c);
    }
    SameAlloc(fs, fs', ms);
    StoreBytes(fs, fs', ms, i, n, b);
  }

  lemma StoreSlots(sb: Super, fs: Fs, i: nat, k: nat, x: Block)
    requires WfLayout(sb, fs) && RefsInData(sb, fs) && RefsDistinct(fs)
    requires i < |fs.inodes| && k < NSLOTS && k != INDIRECT && RefAt(fs, i, k) != 0
    ensures SameRefs(fs, fs.(blocks := fs.blocks[RefAt(fs, i, k) := x]))
  {
    hide RefAt;
    var b := RefAt(fs, i, k);
    var fs' := fs.(blocks := fs.blocks[b := x]);
    forall j, l | 0 <= j < |fs.inodes| && 0 <= l < NSLOTS ensures RefAt(fs', j, l) == RefAt(fs, j, l) {
      AddrSlot(fs, j, INDIRECT);
      assert RefAt(fs, j, INDIRECT) != b;
      SlotFrame(fs, fs', j);
    }
  }

  lemma SameAlloc(fs: Fs, fs': Fs, ms: seq<nat>)
    requires SameRefs(fs, fs') && fs'.inodes == fs.inodes && Alloc(fs, ms)
    ensures Alloc(fs', ms)
  {
    hide RefAt;
    forall j | 0 <= j < |ms| ensures AllocTo(fs', j, ms[j]) {
      assert AllocTo(fs, j, ms[j]);
    }
  }

  lemma StoreBytes(fs: Fs, fs': Fs, ms: seq<nat>, i: nat, n: nat, b: nat)
    requires SameRefs(fs, fs') && RefsDistinct(fs) && Alloc(fs, ms) && i < |ms| && n < ms[i]
    requires b == RefAt(fs, i, SlotOf(n)) && n < MAXFILE
    requires forall c :: 0 <= c < |fs.blocks| && c != b ==> fs'.blocks[c] == fs.blocks[c]
    ensures BytesKept(fs, fs', ms, i, n * BSIZE, (n + 1) * BSIZE)
  {
    hide RefAt;
    forall j, p | 0 <= j < |ms| && 0 <= p && p / BSIZE < ms[j] && p / BSIZE < MAXFILE
      && !(j == i && n * BSIZE <= p < (n + 1) * BSIZE)
      ensures FileByte(fs', j, p) == FileByte(fs, j, p)
    {
      assert AllocTo(fs, j, ms[j]) && AllocTo(fs, i, ms[i]);
      if j == i { assert p / BSIZE != n; }
      assert RefAt(fs, j, SlotOf(p / BSIZE)) != b;
    }
  }

  /** iupdate: the inode block is rewritten; nothing else about the file system changes. */
  lemma IupdateEffect(sb: Super, fs: Fs, ms: seq<nat>, i: nat)
    requires Owns(sb, fs, {}, {}) && Alloc(fs, ms) && i < |fs.inodes|
    ensures var c := Iblock(sb, i);
            && c < |fs.blocks|
            && var fs' := fs.(blocks := fs.blocks[c := PutDinode(fs.blocks[c], i % IPB, fs.inodes[i])]);
               && Owns(sb, fs', {}, {}) && SameRefs(fs, fs') && Alloc(fs', ms)
               && SyncedAt(sb, fs', i)
               && (forall j :: 0 <= j < |fs.inodes| && j != i && SyncedAt(sb, fs, j) ==> SyncedAt(sb, fs', j))
               && (forall b :: sb.bmapstart <= b < sb.size ==> fs'.blocks[b] == fs.blocks[b])
  {
    hide Bit, GetDinode, PutDinode;
    var c := Iblock(sb, i);
    var fs' := fs.(blocks := fs.blocks[c := PutDinode(fs.blocks[c], i % IPB, fs.inodes[i])]);
    DinodeRoundTrip(fs.blocks[c], i % IPB, fs.inodes[i]);
    RefsFrame(sb, fs, fs');
    SameRefsOwn(sb, fs, fs');
    SameAlloc(fs, fs', ms);
    forall b | 0 <= b < sb.size ensures BitAt(sb, fs'.blocks, b) == BitAt(sb, fs.blocks, b) {
      BblockIsMeta(sb, fs, b);
    }
    forall j | 0 <= j < |fs.inodes| && j != i && SyncedAt(sb, fs, j) ensures SyncedAt(sb, fs', j) {
      if Iblock(sb, j) == c { assert j % IPB != i % IPB; }
    }
  }

  /** memmove(data + o, piece): the block with some of its bytes replaced. */
  function Splice(x: Block, o: nat, piece: seq<Byte>): (r: Block)
    requires o + |piece| <= BSIZE
  {
    x[..o] + piece + x[o + |piece|..]
  }

  /** One iteration of writei, after its bmap: piece lands at pos and no other byte moves. */
  lemma WritePiece(sb: Super, fs: Fs, ms: seq<nat>, i: nat, pos: nat, piece: seq<Byte>)
    requires Owns(sb, fs, {}, {}) && Alloc(fs, ms) && i < |ms| && pos / BSIZE < ms[i]
    requires pos % BSIZE + |piece| <= BSIZE
    ensures var b := RefAt(fs, i, SlotOf(pos / BSIZE));
            && b < |fs.blocks| && sb.datastart <= b
            && var fs' := fs.(blocks := fs.blocks[b := Splice(fs.blocks[b], pos % BSIZE, piece)]);
               && Owns(sb, fs', {}, {}) && SameRefs(fs, fs') && Alloc(fs', ms)
               && BytesKept(fs, fs', ms, i, pos, pos + |piece|)
               && forall p :: pos <= p < pos + |piece| && p / BSIZE < MAXFILE ==> FileByte(fs', i, p) == piece[p - pos]
  {
    hide RefAt, Owns;
    var n, o := pos / BSIZE, pos % BSIZE;
    StoreBlock(sb, fs, ms, i, n, ZERO);
    var b := RefAt(fs, i, SlotOf(n));
    var x := Splice(fs.blocks[b], o, piece);
    StoreBlock(sb, fs, ms, i, n, x);
    var fs' := fs.(blocks := fs.blocks[b := x]);
    forall p | n * BSIZE <= p < (n + 1) * BSIZE && p / BSIZE < MAXFILE
      ensures FileByte(fs', i, p) == if pos <= p < pos + |piece| then piece[p - pos] else FileByte(fs, i, p)
    {
      assert p / BSIZE == n && p % BSIZE == p - n * BSIZE;
    }
    SpliceBytes(fs, fs', ms, i, n, pos, |piece|);
  }

  lemma SpliceBytes(fs: Fs, fs': Fs, ms: seq<nat>, i: nat, n: nat, pos: nat, len: nat)
    requires |ms| == |fs.inodes| == |fs'.inodes| && i < |ms| && n == pos / BSIZE && pos % BSIZE + len <= BSIZE
    requires BytesKept(fs, fs', ms, i, n * BSIZE, (n + 1) * BSIZE)
    requires forall p :: n * BSIZE <= p < (n + 1) * BSIZE && p / BSIZE < MAXFILE && !(pos <= p < pos + len) ==>
               FileByte(fs', i, p) == FileByte(fs, i, p)
    ensures BytesKept(fs, fs', ms, i, pos, pos + len)
  {
    hide FileByte;
  }

  /** src written over c from position off on, extending c if it reaches past the end. */
  function Overlay(c: seq<Byte>, off: nat, src: seq<Byte>): (r: seq<Byte>)
    requires off <= |c|
    ensures |r| == Max(|c|, off + |src|)
  {
    c[..off] + src + (if off + |src| < |c| then c[off + |src|..] else [])
  }

  function Sizes(inodes: seq<Inode>): (ms: seq<nat>)
    ensures |ms| == |inodes| && forall j :: 0 <= j < |ms| ==> ms[j] == BlocksFor(inodes[j].size)
  {
    seq(|inodes|, j requires 0 <= j < |inodes| => BlocksFor(inodes[j].size))
  }

  lemma WfAlloc(sb: Super, fs: Fs)
    requires WfFs(sb, fs)
    ensures Alloc(fs, Sizes(fs.inodes))
  {
    hide RefAt;
    forall j | 0 <= j < |fs.inodes| ensures AllocTo(fs, j, Sizes(fs.inodes)[j]) {
      assert WfFile(fs, j);
    }
  }

  /** What one iteration of writei does to the whole file system. */
  ghost predicate PieceWritten(sb: Super, fs: Fs, fs': Fs, ms: seq<nat>, i: nat, pos: nat, piece: seq<Byte>)
    requires |ms| == |fs.inodes| && i < |ms|
  {
    && Owns(sb, fs', {}, {}) && |fs'.inodes| == |fs.inodes| && |fs'.blocks| == |fs.blocks|
    && Alloc(fs', ms[i := Max(ms[i], pos / BSIZE + 1)])
    && BytesKept(fs, fs', ms, i, pos, pos + |piece|)
    && (forall p :: pos <= p < pos + |piece| && p / BSIZE < MAXFILE ==> FileByte(fs', i, p) == piece[p - pos])
    && fs'.inodes == fs.inodes[i := fs.inodes[i].(addrs := fs'.inodes[i].addrs)]
    && (pos / BSIZE < ms[i] ==> fs'.inodes == fs.inodes)
    && (forall c :: 0 <= c < sb.bmapstart && c < |fs.blocks| ==> fs'.blocks[c] == fs.blocks[c])
  }

  /** bmap and then the store of the piece make up one iteration. */
  lemma PieceDone(sb: Super, fs: Fs, fs1: Fs, ms: seq<nat>, i: nat, pos: nat, piece: seq<Byte>)
    requires Owns(sb, fs, {}, {}) && Alloc(fs, ms) && i < |ms|
    requires pos % BSIZE + |piece| <= BSIZE && pos / BSIZE <= ms[i] && pos / BSIZE < MAXFILE
    requires BmapEffect(sb, fs, fs1, i, pos / BSIZE)
    requires pos / BSIZE < ms[i] ==> fs1 == fs
    ensures var b := RefAt(fs1, i, SlotOf(pos / BSIZE));
            && b < |fs1.blocks|
            && var fs' := fs1.(blocks := fs1.blocks[b := Splice(fs1.blocks[b], pos % BSIZE, piece)]);
               PieceWritten(sb, fs, fs', ms, i, pos, piece) && SameRefs(fs1, fs')
  {
    hide RefAt, FileByte, RefsDistinct, RefsInData, Bitmap, AllocTo;
    BmapAlloc(sb, fs, fs1, ms, i, pos / BSIZE);
    BmapBytes(sb, fs, fs1, ms, i, pos / BSIZE);
    WritePiece(sb, fs1, ms[i := Max(ms[i], pos / BSIZE + 1)], i, pos, piece);
  }

  /** The state part way through writei: tot bytes of src written to file i at off. */
  ghost predicate Writing(sb: Super, fs0: Fs, fs: Fs, i: nat, off: nat, src: seq<Byte>, tot: nat)
    requires i < |fs0.inodes|
  {
    var ms0 := Sizes(fs0.inodes);
    var m := Max(ms0[i], BlocksFor(off + tot));
    && tot <= |src| && off + |src| <= MAXFILE * BSIZE
    && Owns(sb, fs, {}, {}) && |fs.inodes| == |fs0.inodes| && |fs.blocks| == |fs0.blocks|
    && Alloc(fs, ms0[i := m])
    && fs.inodes == fs0.inodes[i := fs0.inodes[i].(addrs := fs.inodes[i].addrs)]
    && (m == ms0[i] ==> fs.inodes == fs0.inodes)
    && (forall c :: 0 <= c < sb.bmapstart && c < |fs0.blocks| ==> fs.blocks[c] == fs0.blocks[c])
    && BytesKept(fs0, fs, ms0, i, off, off + tot)
    && (forall p :: off <= p < off + tot ==> FileByte(fs, i, p) == src[p - off])
  }

  /** A piece within one block: how many blocks reach up to its end. */
  lemma PieceBlocks(pos: nat, len: nat)
    requires 1 <= len && pos % BSIZE + len <= BSIZE
    ensures BlocksFor(pos + len) == pos / BSIZE + 1
    ensures pos / BSIZE <= BlocksFor(pos) <= pos / BSIZE + 1
  {}

  lemma WritingStart(sb: Super, fs: Fs, i: nat, off: nat, src: seq<Byte>)
    requires WfFs(sb, fs) && i < |fs.inodes| && off <= fs.inodes[i].size && off + |src| <= MAXFILE * BSIZE
    ensures Writing(sb, fs, fs, i, off, src, 0)
  {
    hide FileByte, RefAt;
    WfAlloc(sb, fs);
    var ms := Sizes(fs.inodes);
    assert ms[i := Max(ms[i], BlocksFor(off))] == ms;
  }

  lemma WritingStep(sb: Super, fs0: Fs, fs: Fs, fs': Fs, i: nat, off: nat, src: seq<Byte>, tot: nat, len: nat)
    requires i < |fs0.inodes| && Writing(sb, fs0, fs, i, off, src, tot)
    requires 1 <= len && tot + len <= |src| && (off + tot) % BSIZE + len <= BSIZE
    requires var ms := Sizes(fs0.inodes)[i := Max(Sizes(fs0.inodes)[i], BlocksFor(off + tot))];
             PieceWritten(sb, fs, fs', ms, i, off + tot, src[tot..tot + len])
    ensures Writing(sb, fs0, fs', i, off, src, tot + len)
  {
    hide FileByte, Owns, AllocTo, BlocksFor;
    var pos := off + tot;
    PieceBlocks(pos, len);
    var ms0 := Sizes(fs0.inodes);
    var ms := ms0[i := Max(ms0[i], BlocksFor(pos))];
    assert ms[i := Max(ms[i], pos / BSIZE + 1)] == ms0[i := Max(ms0[i], BlocksFor(pos + len))];
    forall p | off <= p < off + tot + len ensures FileByte(fs', i, p) == src[p - off] {
      assert p / BSIZE < MAXFILE;
      if p < pos {
        assert p / BSIZE < BlocksFor(pos) by { BelowBlocks(p, pos); }
      }
    }
  }

  lemma BelowBlocks(p: nat, q: nat)
    requires p < q
    ensures p / BSIZE < BlocksFor(q)
  {}

  lemma ContentsOverlay(fs0: Fs, fs: Fs, i: nat, off: nat, src: seq<Byte>)
    requires i < |fs0.inodes| == |fs.inodes|
    requires off <= fs0.inodes[i].size <= MAXFILE * BSIZE && off + |src| <= MAXFILE * BSIZE
    requires fs.inodes[i].size == Max(fs0.inodes[i].size, off + |src|)
    requires BytesKept(fs0, fs, Sizes(fs0.inodes), i, off, off + |src|)
    requires forall p :: off <= p < off + |src| ==> FileByte(fs, i, p) == src[p - off]
    ensures Contents(fs, i) == Overlay(Contents(fs0, i), off, src)
  {
    hide FileByte, BlocksFor;
    forall p | 0 <= p < fs.inodes[i].size ensures Contents(fs, i)[p] == Overlay(Contents(fs0, i), off, src)[p] {
      if p < fs0.inodes[i].size { BelowBlocks(p, fs0.inodes[i].size); }
    }
  }

  lemma ContentsSame(fs0: Fs, fs: Fs, i: nat, lo: nat, hi: nat, j: nat)
    requires j < |fs0.inodes| == |fs.inodes| && (j != i || lo == hi)
    requires fs.inodes[j].size == fs0.inodes[j].size <= MAXFILE * BSIZE
    requires BytesKept(fs0, fs, Sizes(fs0.inodes), i, lo, hi)
    ensures Contents(fs, j) == Contents(fs0, j)
  {
    hide FileByte, BlocksFor;
    forall p | 0 <= p < fs.inodes[j].size ensures Contents(fs, j)[p] == Contents(fs0, j)[p] {
      BelowBlocks(p, fs0.inodes[j].size);
    }
  }

  function WithSize(fs: Fs, i: nat, size: Word32): (fs': Fs)
    requires i < |fs.inodes|
  {
    fs.(inodes := fs.inodes[i := fs.inodes[i].(size := size)])
  }

  lemma WithSizeSame(sb: Super, fs: Fs, ms: seq<nat>, i: nat, size: Word32)
    requires i < |fs.inodes| && Owns(sb, fs, {}, {}) && Alloc(fs, ms)
    ensures var fs' := WithSize(fs, i, size);
            Owns(sb, fs', {}, {}) && Alloc(fs', ms) && SameRefs(fs, fs')
  {
    hide Bit, Word;
    var fs' := WithSize(fs, i, size);
    assert SameRefs(fs, fs');
    SameRefsOwn(sb, fs, fs');
    forall j | 0 <= j < |ms| ensures AllocTo(fs', j, ms[j]) {
      assert AllocTo(fs, j, ms[j]);
    }
  }

  /** Bytes depend only on slots and data blocks. */
  lemma SameBytes(sb: Super, fs: Fs, fs': Fs, i: nat, p: nat)
    requires SameRefs(fs, fs') && WfLayout(sb, fs) && RefsInData(sb, fs) && i < |fs.inodes| && p / BSIZE < MAXFILE
    requires forall b :: sb.bmapstart <= b < sb.size ==> fs'.blocks[b] == fs.blocks[b]
    requires RefAt(fs, i, SlotOf(p / BSIZE)) != 0
    ensures FileByte(fs', i, p) == FileByte(fs, i, p)
  {
    hide RefAt;
  }

  /** A successful writei: file i is overlaid with src, every other file is untouched. */
  ghost predicate Written(sb: Super, fs0: Fs, fs: Fs, i: nat, off: nat, src: seq<Byte>)
    requires WfFs(sb, fs0) && i < |fs0.inodes| && off <= fs0.inodes[i].size
  {
    && WfFs(sb, fs) && |fs.inodes| == |fs0.inodes| && |fs.blocks| == |fs0.blocks|
    && WfFile(fs0, i) && WfFile(fs, i)
    && Contents(fs, i) == Overlay(Contents(fs0, i), off, src)
    && forall j :: 0 <= j < |fs.inodes| && j != i ==>
         fs.inodes[j] == fs0.inodes[j] && WfFile(fs0, j) && WfFile(fs, j) && Contents(fs, j) == Contents(fs0, j)
  }

  lemma SyncedKept(sb: Super, fs0: Fs, fs: Fs, j: nat)
    requires WfLayout(sb, fs0) && WfLayout(sb, fs) && j < |fs0.inodes| == |fs.inodes| && fs.inodes[j] == fs0.inodes[j]
    requires SyncedAt(sb, fs0, j)
    requires forall c :: 0 <= c < sb.bmapstart ==> fs.blocks[c] == fs0.blocks[c]
    ensures SyncedAt(sb, fs, j)
  {
    hide GetDinode;
  }

  /** writei that stays within the file: no block was allocated, so no inode changed. */
  lemma DoneWithin(sb: Super, fs0: Fs, fs: Fs, i: nat, off: nat, src: seq<Byte>)
    requires WfFs(sb, fs0) && i < |fs0.inodes| && off <= fs0.inodes[i].size
    requires Writing(sb, fs0, fs, i, off, src, |src|)
    requires off + |src| <= fs0.inodes[i].size
    ensures Written(sb, fs0, fs, i, off, src)
  {
    hide RefAt, FileByte, Bitmap, RefsInData, RefsDistinct, Contents, Overlay, SyncedAt, AllocTo, BytesKept;
    BlocksMono(off + |src|, fs0.inodes[i].size);
    var ms := Sizes(fs0.inodes);
    assert fs.inodes == fs0.inodes && ms[i := ms[i]] == ms;
    forall j | 0 <= j < |fs.inodes| ensures WfFile(fs, j) && SyncedAt(sb, fs, j) {
      assert WfFile(fs0, j) && AllocTo(fs, j, ms[j]);
      SyncedKept(sb, fs0, fs, j);
    }
    assert WfFile(fs0, i);
    ContentsOverlay(fs0, fs, i, off, src);
    forall j | 0 <= j < |fs.inodes| && j != i && WfFile(fs0, j) && WfFile(fs, j)
      ensures Contents(fs, j) == Contents(fs0, j)
    {
      ContentsSame(fs0, fs, i, off, off + |src|, j);
    }
  }

  lemma BlocksMono(a: nat, b: nat)
    requires a <= b
    ensures BlocksFor(a) <= BlocksFor(b)
  {}

  /** writei that extends the file: the new size and the new blocks reach the disk through iupdate. */
  lemma DoneGrown(sb: Super, fs0: Fs, fs1: Fs, fs: Fs, i: nat, off: nat, src: seq<Byte>)
    requires WfFs(sb, fs0) && i < |fs0.inodes| && off <= fs0.inodes[i].size
    requires Writing(sb, fs0, fs1, i, off, src, |src|)
    requires off + |src| > fs0.inodes[i].size
    requires var g := WithSize(fs1, i, off + |src|);
             && fs.inodes == g.inodes && Owns(sb, fs, {}, {}) && SameRefs(g, fs) && SameRefs(fs1, g)
             && Alloc(fs, Sizes(fs0.inodes)[i := BlocksFor(off + |src|)])
             && SyncedAt(sb, fs, i)
             && (forall j :: 0 <= j < |g.inodes| && j != i && SyncedAt(sb, g, j) ==> SyncedAt(sb, fs, j))
             && (forall b :: sb.bmapstart <= b < sb.size ==> fs.blocks[b] == g.blocks[b])
    ensures Written(sb, fs0, fs, i, off, src)
  {
    hide RefAt, FileByte, Bitmap, Contents, Overlay, SyncedAt, AllocTo, BytesKept, RefsDistinct;
    var g := WithSize(fs1, i, off + |src|);
    var ms := Sizes(fs0.inodes);
    forall j | 0 <= j < |fs.inodes| ensures WfFile(fs, j) && SyncedAt(sb, fs, j) {
      assert WfFile(fs0, j) && AllocTo(fs, j, ms[i := BlocksFor(off + |src|)][j]);
      if j != i { SyncedKept(sb, fs0, g, j); }
    }
    GrownBytes(sb, fs0, fs1, g, fs, i, off, src);
    assert WfFile(fs0, i);
    ContentsOverlay(fs0, fs, i, off, src);
    forall j | 0 <= j < |fs.inodes| && j != i && WfFile(fs0, j) && WfFile(fs, j)
      ensures Contents(fs, j) == Contents(fs0, j)
    {
      ContentsSame(fs0, fs, i, off, off + |src|, j);
    }
  }

  lemma GrownBytes(sb: Super, fs0: Fs, fs1: Fs, g: Fs, fs: Fs, i: nat, off: nat, src: seq<Byte>)
    requires i < |fs0.inodes| && Writing(sb, fs0, fs1, i, off, src, |src|)
    requires |g.inodes| == |fs1.inodes| && g.blocks == fs1.blocks && SameRefs(fs1, g) && SameRefs(g, fs)
    requires forall b :: sb.bmapstart <= b < sb.size ==> fs.blocks[b] == fs1.blocks[b]
    ensures BytesKept(fs0, fs, Sizes(fs0.inodes), i, off, off + |src|)
    ensures forall p :: off <= p < off + |src| ==> FileByte(fs, i, p) == src[p - off]
  {
    hide RefAt, FileByte, BlocksFor, Bitmap, RefsDistinct;
    var ms := Sizes(fs0.inodes);
    var ms1 := ms[i := Max(ms[i], BlocksFor(off + |src|))];
    forall j, p | 0 <= j < |ms| && 0 <= p && p / BSIZE < ms1[j] && p / BSIZE < MAXFILE
      ensures FileByte(fs, j, p) == FileByte(fs1, j, p)
    {
      assert AllocTo(fs1, j, ms1[j]);
      SameBytes(sb, fs1, fs, j, p);
    }
    forall p | off <= p < off + |src| ensures FileByte(fs, i, p) == src[p - off] {
      BelowBlocks(p, off + |src|);
    }
  }

  // ---- reading ----

  /** Below the file size every block, and the indirect block it needs, is allocated. */
  lemma ReadableBlock(fs: Fs, i: nat, pos: nat)
    requires i < |fs.inodes| && WfFile(fs, i) && pos < fs.inodes[i].size
    ensures pos / BSIZE < MAXFILE && RefAt(fs, i, SlotOf(pos / BSIZE)) != 0
    ensures pos / BSIZE < NDIRECT || RefAt(fs, i, INDIRECT) != 0
  {
    hide RefAt;
    BelowBlocks(pos, fs.inodes[i].size);
    AddrSlot(fs, i, INDIRECT);
  }

  lemma SlotInRange(sb: Super, fs: Fs, i: nat, k: nat)
    requires Owns(sb, fs, {}, {}) && i < |fs.inodes| && k < NSLOTS
    ensures RefAt(fs, i, k) < |fs.blocks|
  {
    hide RefAt;
  }

  lemma ReadPiece(fs: Fs, i: nat, pos: nat, m: nat)
    requires i < |fs.inodes| && fs.inodes[i].size <= MAXFILE * BSIZE && pos + m <= fs.inodes[i].size
    requires pos / BSIZE < MAXFILE && pos % BSIZE + m <= BSIZE && RefAt(fs, i, SlotOf(pos / BSIZE)) < |fs.blocks|
    ensures fs.blocks[RefAt(fs, i, SlotOf(pos / BSIZE))][pos % BSIZE..pos % BSIZE + m] == Contents(fs, i)[pos..pos + m]
  {
    hide RefAt;
    var u, v := fs.blocks[RefAt(fs, i, SlotOf(pos / BSIZE))][pos % BSIZE..pos % BSIZE + m],
        Contents(fs, i)[pos..pos + m];
    forall q | 0 <= q < m ensures u[q] == v[q] {
      assert (pos + q) / BSIZE == pos / BSIZE && (pos + q) % BSIZE == pos % BSIZE + q;
    }
  }

  lemma WfFileOf(sb: Super, fs: Fs, i: nat)
    requires WfFs(sb, fs) && i < |fs.inodes|
    ensures WfFile(fs, i)
  {}

  lemma SliceJoin(c: seq<Byte>, a: nat, b: nat, e: nat)
    requires a <= b <= e <= |c|
    ensures c[a..b] + c[b..e] == c[a..e]
  {}

  // ---- truncation ----

  /** Block c is the one that some slot of inode i in K led to. */
  ghost predicate OwnedVia(fs: Fs, i: nat, K: set<nat>, c: nat)
    requires i < |fs.inodes|
  {
    c != 0 && exists k :: 0 <= k < NSLOTS && k in K && RefAt(fs, i, k) == c
  }

  /** The blocks of the slots K of inode i have been freed, and nothing else outside the free map changed. */
  ghost predicate Freed(sb: Super, fs0: Fs, blocks: Disk, i: nat, K: set<nat>)
    requires WfLayout(sb, fs0) && i < |fs0.inodes|
  {
    && |blocks| == |fs0.blocks|
    && (forall c :: 0 <= c < sb.size ==>
         (BitAt(sb, blocks, c) <==> BitAt(sb, fs0.blocks, c) && !OwnedVia(fs0, i, K, c)))
    && (forall c :: 0 <= c < sb.size && !(sb.bmapstart <= c < sb.datastart) ==> blocks[c] == fs0.blocks[c])
  }

  /** A slot not yet freed leads to a block whose bit is still set, so bfree does not panic on it. */
  lemma FreeSlot(sb: Super, fs0: Fs, blocks: Disk, i: nat, K: set<nat>, k: nat)
    requires Owns(sb, fs0, {}, {}) && i < |fs0.inodes| && k < NSLOTS && k !in K
    requires Freed(sb, fs0, blocks, i, K) && RefAt(fs0, i, k) != 0
    ensures RefAt(fs0, i, k) < sb.size && BitAt(sb, blocks, RefAt(fs0, i, k))
    ensures Freed(sb, fs0, FreeBlock(sb, blocks, RefAt(fs0, i, k)), i, K + {k})
  {
    hide RefAt, Bit, ClearBit;
    var b := RefAt(fs0, i, k);
    assert Refd(fs0, b);
    assert !OwnedVia(fs0, i, K, b);
    BitsAfterFree(sb, fs0.(blocks := blocks), b);
    BblockIsMeta(sb, fs0, b);
    forall c ensures OwnedVia(fs0, i, K + {k}, c) <==> OwnedVia(fs0, i, K, c) || c == b {
      if OwnedVia(fs0, i, K, c) {
        var l :| 0 <= l < NSLOTS && l in K && RefAt(fs0, i, l) == c;
        assert l in K + {k};
      }
    }
  }

  lemma SkipSlot(sb: Super, fs0: Fs, blocks: Disk, i: nat, K: set<nat>, k: nat)
    requires WfLayout(sb, fs0) && i < |fs0.inodes| && k < NSLOTS
    requires Freed(sb, fs0, blocks, i, K) && RefAt(fs0, i, k) == 0
    ensures Freed(sb, fs0, blocks, i, K + {k})
  {
    hide RefAt, BitAt;
    forall c ensures OwnedVia(fs0, i, K + {k}, c) <==> OwnedVia(fs0, i, K, c) {
      if OwnedVia(fs0, i, K, c) {
        var l :| 0 <= l < NSLOTS && l in K && RefAt(fs0, i, l) == c;
        assert l in K + {k};
      }
    }
  }

  lemma FreedNothing(sb: Super, fs: Fs, i: nat)
    requires WfLayout(sb, fs) && i < |fs.inodes|
    ensures Freed(sb, fs, fs.blocks, i, {})
  {
    hide BitAt, RefAt;
  }

  lemma FreedKeeps(sb: Super, fs0: Fs, blocks: Disk, i: nat, K: set<nat>, b: nat)
    requires WfLayout(sb, fs0) && i < |fs0.inodes| && Freed(sb, fs0, blocks, i, K) && sb.datastart <= b < sb.size
    ensures |blocks| == |fs0.blocks| && blocks[b] == fs0.blocks[b]
  {
    hide RefAt, BitAt;
  }

  /** Without an indirect block the direct slots are all there is to free. */
  lemma RestEmpty(sb: Super, fs0: Fs, blocks: Disk, i: nat, K: set<nat>)
    requires WfLayout(sb, fs0) && i < |fs0.inodes| && fs0.inodes[i].addrs[INDIRECT] == 0
    requires Freed(sb, fs0, blocks, i, K) && forall k :: k in K <==> 0 <= k < NDIRECT
    ensures Freed(sb, fs0, blocks, i, AllSlots())
  {
    hide BitAt, Word;
    forall c ensures OwnedVia(fs0, i, AllSlots(), c) <==> OwnedVia(fs0, i, K, c) {
      if OwnedVia(fs0, i, AllSlots(), c) {
        var k :| 0 <= k < NSLOTS && k in AllSlots() && RefAt(fs0, i, k) == c;
        assert k in K;
      }
    }
  }

  ghost function AllSlots(): (K: set<nat>)
    ensures forall k :: k in K <==> 0 <= k < NSLOTS
  {
    Range(NSLOTS)
  }

  function Emptied(ip: Inode): (r: Inode)
  {
    ip.(size := 0, addrs := seq<Word32>(NDIRECT + 1, _ => 0))
  }

  lemma EmptiedSlots(fs: Fs, fs0: Fs, i: nat)
    requires i < |fs0.inodes| && fs.inodes == fs0.inodes[i := Emptied(fs0.inodes[i])] && |fs.blocks| == |fs0.blocks|
    ensures forall k :: 0 <= k < NSLOTS ==> RefAt(fs, i, k) == 0
  {
    hide Word;
  }

  /** Freeing every slot of an inode and emptying it leaves a well-owned file system without its blocks. */
  lemma TruncOwns(sb: Super, fs0: Fs, fs: Fs, ms: seq<nat>, i: nat)
    requires Owns(sb, fs0, {}, {}) && i < |fs0.inodes| && Alloc(fs0, ms)
    requires fs.inodes == fs0.inodes[i := Emptied(fs0.inodes[i])]
    requires Freed(sb, fs0, fs.blocks, i, AllSlots())
    ensures Owns(sb, fs, {}, {}) && Alloc(fs, ms[i := 0])
    ensures forall j, k :: 0 <= j < |fs.inodes| && 0 <= k < NSLOTS && j != i ==> RefAt(fs, j, k) == RefAt(fs0, j, k)
  {
    hide RefAt, Bit;
    EmptiedSlots(fs, fs0, i);
    forall j, k | 0 <= j < |fs.inodes| && 0 <= k < NSLOTS && j != i ensures RefAt(fs, j, k) == RefAt(fs0, j, k) {
      AddrSlot(fs0, j, INDIRECT);
      SlotFrame(fs0, fs, j);
    }
    TruncRefs(sb, fs0, fs, i);
    var ms' := ms[i := 0];
    forall j | 0 <= j < |ms| ensures AllocTo(fs, j, ms'[j]) {
      assert AllocTo(fs0, j, ms[j]);
    }
  }

  lemma TruncRefs(sb: Super, fs0: Fs, fs: Fs, i: nat)
    requires Owns(sb, fs0, {}, {}) && i < |fs0.inodes| == |fs.inodes|
    requires Freed(sb, fs0, fs.blocks, i, AllSlots())
    requires forall k :: 0 <= k < NSLOTS ==> RefAt(fs, i, k) == 0
    requires forall j, k :: 0 <= j < |fs.inodes| && 0 <= k < NSLOTS && j != i ==> RefAt(fs, j, k) == RefAt(fs0, j, k)
    ensures Owns(sb, fs, {}, {})
  {
    hide RefAt, BitAt;
    forall c | 0 < c < sb.size ensures Refd(fs, c) <==> Refd(fs0, c) && !OwnedVia(fs0, i, AllSlots(), c) {
      if Refd(fs, c) {
        var j, k :| 0 <= j < |fs.inodes| && 0 <= k < NSLOTS && RefAt(fs, j, k) == c;
        assert RefAt(fs0, j, k) == c;
      }
      if Refd(fs0, c) && !OwnedVia(fs0, i, AllSlots(), c) {
        var j, k :| 0 <= j < |fs.inodes| && 0 <= k < NSLOTS && RefAt(fs0, j, k) == c;
        assert j != i;
        assert RefAt(fs, j, k) == c;
      }
    }
    forall c | 0 <= c < sb.datastart ensures !OwnedVia(fs0, i, AllSlots(), c) {}
  }

  /** The whole effect of itrunc: exactly the blocks of inode i are freed and no other file changes. */
  ghost predicate TruncatedTo(sb: Super, fs0: Fs, fs: Fs, i: nat)
    requires WfFs(sb, fs0) && i < |fs0.inodes|
  {
    && WfFs(sb, fs) && |fs.inodes| == |fs0.inodes| && |fs.blocks| == |fs0.blocks|
    && fs.inodes == fs0.inodes[i := Emptied(fs0.inodes[i])]
    && (forall c :: 0 <= c < sb.size ==>
         (BitAt(sb, fs.blocks, c) <==> BitAt(sb, fs0.blocks, c) && !OwnedVia(fs0, i, AllSlots(), c)))
    && (forall j :: 0 <= j < |fs.inodes| && j != i ==>
         WfFile(fs0, j) && WfFile(fs, j) && Contents(fs, j) == Contents(fs0, j))
  }

  lemma TruncDone(sb: Super, fs0: Fs, fs1: Fs, fs: Fs, i: nat)
    requires WfFs(sb, fs0) && i < |fs0.inodes|
    requires fs1.inodes == fs0.inodes[i := Emptied(fs0.inodes[i])] && fs.inodes == fs1.inodes
    requires Freed(sb, fs0, fs1.blocks, i, AllSlots()) && Owns(sb, fs1, {}, {})
    requires forall j, k :: 0 <= j < |fs1.inodes| && 0 <= k < NSLOTS && j != i ==> RefAt(fs1, j, k) == RefAt(fs0, j, k)
    requires Owns(sb, fs, {}, {}) && SameRefs(fs1, fs) && Alloc(fs, Sizes(fs0.inodes)[i := 0]) && SyncedAt(sb, fs, i)
    requires forall j :: 0 <= j < |fs.inodes| && j != i && SyncedAt(sb, fs1, j) ==> SyncedAt(sb, fs, j)
    requires forall b :: sb.bmapstart <= b < sb.size ==> fs.blocks[b] == fs1.blocks[b]
    ensures TruncatedTo(sb, fs0, fs, i)
  {
    hide RefAt, Bit, SyncedAt, AllocTo, FileByte, Bitmap, RefsDistinct, RefsInData, OwnedVia;
    var ms := Sizes(fs0.inodes)[i := 0];
    forall j | 0 <= j < |fs.inodes| ensures WfFile(fs, j) && SyncedAt(sb, fs, j) {
      assert WfFile(fs0, j) && AllocTo(fs, j, ms[j]);
      if j != i { SyncedKept(sb, fs0, fs1, j); }
    }
    forall c | 0 <= c < sb.size ensures BitAt(sb, fs.blocks, c) == BitAt(sb, fs1.blocks, c) {
      BblockIsMeta(sb, fs0, c);
    }
    forall j | 0 <= j < |fs.inodes| && j != i && WfFile(fs0, j) && WfFile(fs, j)
      ensures Contents(fs, j) == Contents(fs0, j)
    {
      TruncContents(sb, fs0, fs, i, j);
    }
  }

  lemma TruncContents(sb: Super, fs0: Fs, fs: Fs, i: nat, j: nat)
    requires Owns(sb, fs0, {}, {}) && j < |fs0.inodes| == |fs.inodes| && WfFile(fs0, j) && |fs.blocks| == |fs0.blocks|
    requires fs.inodes[j] == fs0.inodes[j]
    requires forall k :: 0 <= k < NSLOTS ==> RefAt(fs, j, k) == RefAt(fs0, j, k)
    requires forall b :: sb.datastart <= b < sb.size ==> fs.blocks[b] == fs0.blocks[b]
    ensures Contents(fs, j) == Contents(fs0, j)
  {
    hide RefAt, Bitmap, RefsDistinct;
    forall p | 0 <= p < fs.inodes[j].size ensures Contents(fs, j)[p] == Contents(fs0, j)[p] {
      ReadableBlock(fs0, j, p);
    }
  }

  // ---- consecutive writes ----

  lemma OverlayTwice(c: seq<Byte>, off: nat, a: seq<Byte>, b: seq<Byte>)
    requires off <= |c|
    ensures Overlay(Overlay(c, off, a), off + |a|, b) == Overlay(c, off, a + b)
  {
    var l, r := Overlay(Overlay(c, off, a), off + |a|, b), Overlay(c, off, a + b);
    assert |l| == |r|;
    forall p | 0 <= p < |l| ensures l[p] == r[p] {}
  }

  lemma OverlayNothing(c: seq<Byte>, off: nat)
    requires off <= |c|
    ensures Overlay(c, off, []) == c
  {}

  /** Two writes one after the other are one write of both pieces. */
  lemma WrittenTwice(sb: Super, fs0: Fs, fs1: Fs, fs2: Fs, i: nat, off: nat, a: seq<Byte>, b: seq<Byte>)
    requires WfFs(sb, fs0) && i < |fs0.inodes| && off <= fs0.inodes[i].size && Written(sb, fs0, fs1, i, off, a)
    requires off + |a| <= fs1.inodes[i].size && Written(sb, fs1, fs2, i, off + |a|, b)
    ensures Written(sb, fs0, fs2, i, off, a + b)
  {
    hide WfFs, AllocTo, Contents, Overlay;
    assert |Contents(fs0, i)| == fs0.inodes[i].size;
    OverlayTwice(Contents(fs0, i), off, a, b);
  }

  lemma WrittenNothing(sb: Super, fs: Fs, i: nat, off: nat)
    requires WfFs(sb, fs) && i < |fs.inodes| && off <= fs.inodes[i].size
    ensures Written(sb, fs, fs, i, off, [])
  {
    hide AllocTo, Contents, Overlay, Owns, Synced;
    assert WfFile(fs, i);
    OverlayNothing(Contents(fs, i), off);
  }

  lemma WrittenWf(sb: Super, fs0: Fs, fs: Fs, i: nat, off: nat, src: seq<Byte>)
    requires WfFs(sb, fs0) && i < |fs0.inodes| && off <= fs0.inodes[i].size && Written(sb, fs0, fs, i, off, src)
    ensures WfFs(sb, fs) && |fs.inodes| == |fs0.inodes|
  {}

  /** The size after a write. */
  lemma WrittenSize(sb: Super, fs0: Fs, fs: Fs, i: nat, off: nat, src: seq<Byte>)
    requires WfFs(sb, fs0) && i < |fs0.inodes| && off <= fs0.inodes[i].size && Written(sb, fs0, fs, i, off, src)
    ensures fs.inodes[i].size == Max(fs0.inodes[i].size, off + |src|)
  {
    hide WfFs, AllocTo, FileByte;
    assert |Contents(fs, i)| == fs.inodes[i].size;
  }

  // ---- which blocks are logged ----

  /** Every block that changed has been logged. */
  ghost predicate ChangesLogged(blocks0: Disk, logged0: set<nat>, blocks: Disk, logged: set<nat>)
  {
    |blocks| == |blocks0| && logged0 <= logged && forall c :: 0 <= c < |blocks0| && c !in logged ==>
        blocks[c] == blocks0[c]
  }

  lemma ChangesAgain(b0: Disk, l0: set<nat>, b1: Disk, l1: set<nat>, b2: Disk, l2: set<nat>)
    requires ChangesLogged(b0, l0, b1, l1) && ChangesLogged(b1, l1, b2, l2)
    ensures ChangesLogged(b0, l0, b2, l2)
  {}

  // ---- how many blocks are free ----

  ghost function FreeBlocks(sb: Super, blocks: Disk): (r: set<nat>)
  {
    set c: nat | c < sb.size && Bblock(sb, c) < |blocks| && !BitAt(sb, blocks, c)
  }

  /** Blocks of a file of n data blocks: those and the indirect one. */
  function SlotsFor(n: nat): (k: nat)
  {
    n + if n > NDIRECT then 1 else 0
  }

  /** Blocks that a file of the given size lacks to reach up to end. */
  function WriteCost(size: nat, end: nat): (n: nat)
    ensures n == SlotsFor(BlocksFor(Max(size, end))) - SlotsFor(BlocksFor(size))
  {
    BlocksMono(size, Max(size, end));
    SlotsFor(BlocksFor(Max(size, end))) - SlotsFor(BlocksFor(size))
  }

  /** Blocks that bmap allocates for the nth block of file i. */
  ghost function BmapCost(fs: Fs, i: nat, n: nat): (k: nat)
    requires i < |fs.inodes| && n < MAXFILE
  {
    (if RefAt(fs, i, SlotOf(n)) == 0 then 1 else 0) + if n >= NDIRECT && RefAt(fs, i, INDIRECT) == 0 then 1 else 0
  }

  lemma AllocTakesOne(sb: Super, fs: Fs, b: nat)
    requires Owns(sb, fs, {}, {}) && b < sb.size && !BitAt(sb, fs.blocks, b)
    ensures |FreeBlocks(sb, AllocBlock(sb, fs.blocks, b))| + 1 == |FreeBlocks(sb, fs.blocks)|
  {
    hide Bit, SetBit, RefsInData, RefsDistinct, AllocBlock;
    BitsAfterAlloc(sb, fs, b);
    var r := AllocBlock(sb, fs.blocks, b);
    assert |r| == |fs.blocks| by { AllocSize(sb, fs.blocks, b); }
    forall c | 0 <= c < sb.size ensures Bblock(sb, c) < |fs.blocks| { BblockIsMeta(sb, fs, c); }
    assert FreeBlocks(sb, r) == FreeBlocks(sb, fs.blocks) - {b};
  }

  lemma AllocSize(sb: Super, blocks: Disk, b: nat)
    requires Bblock(sb, b) < |blocks| && b < |blocks| && !BitAt(sb, blocks, b)
    ensures |AllocBlock(sb, blocks, b)| == |blocks|
  {
    hide Bit, SetBit;
  }

  lemma SameFree(sb: Super, fs: Fs, blocks: Disk)
    requires WfLayout(sb, fs) && |blocks| == |fs.blocks|
    requires forall c :: sb.bmapstart <= c < sb.datastart ==> blocks[c] == fs.blocks[c]
    ensures FreeBlocks(sb, blocks) == FreeBlocks(sb, fs.blocks)
  {
    hide Bit;
    forall c | 0 <= c < sb.size ensures BitAt(sb, blocks, c) == BitAt(sb, fs.blocks, c) { BblockIsMeta(sb, fs, c); }
  }

  /** A data block is stored: no bit of the free map moves. */
  lemma StoreFree(sb: Super, fs: Fs, b: nat, x: Block)
    requires WfLayout(sb, fs) && sb.datastart <= b < sb.size
    ensures FreeBlocks(sb, fs.blocks[b := x]) == FreeBlocks(sb, fs.blocks)
  {
    hide FreeBlocks;
    SameFree(sb, fs, fs.blocks[b := x]);
  }

  /** A block allocated into the indirect block a. */
  lemma WordTakesOne(sb: Super, fs: Fs, a: nat, b: nat, x: Block)
    requires Owns(sb, fs, {}, {}) && b < sb.size && !BitAt(sb, fs.blocks, b) && sb.datastart <= a < sb.size
    ensures |AllocBlock(sb, fs.blocks, b)| == |fs.blocks|
    ensures |FreeBlocks(sb, AllocBlock(sb, fs.blocks, b)[a := x])| + 1 == |FreeBlocks(sb, fs.blocks)|
  {
    hide FreeBlocks, BitAt, AllocBlock, RefsInData, RefsDistinct, Bitmap;
    AllocTakesOne(sb, fs, b);
    AllocSize(sb, fs.blocks, b);
    StoreFree(sb, Fs(AllocBlock(sb, fs.blocks, b), fs.inodes), a, x);
  }

  lemma BmapCostIs(fs: Fs, i: nat, m: nat, n: nat)
    requires i < |fs.inodes| && AllocTo(fs, i, m) && n <= m && n < MAXFILE
    ensures BmapCost(fs, i, n) == SlotsFor(Max(m, n + 1)) - SlotsFor(m)
    ensures if n < m then RefAt(fs, i, SlotOf(n)) != 0 && (n < NDIRECT || RefAt(fs, i, INDIRECT) != 0)
            else RefAt(fs, i, SlotOf(n)) == 0
  {
    hide RefAt;
    AddrSlot(fs, i, INDIRECT);
  }

  lemma BlocksMax(a: nat, b: nat)
    ensures BlocksFor(Max(a, b)) == Max(BlocksFor(a), BlocksFor(b))
  {
    BlocksMono(if a < b then a else b, Max(a, b));
  }

  /** One iteration of writei: what was needed so far, and what this piece needs. */
  lemma CostStep(size: nat, pos: nat, len: nat)
    requires 1 <= len && pos % BSIZE + len <= BSIZE
    ensures var m := Max(BlocksFor(size), BlocksFor(pos));
            WriteCost(size, pos + len) == WriteCost(size, pos) + SlotsFor(Max(m, pos / BSIZE + 1)) - SlotsFor(m)
  {
    hide BlocksFor, SlotsFor;
    PieceBlocks(pos, len);
    BlocksMax(size, pos);
    BlocksMax(size, pos + len);
  }

  lemma CostMono(size: nat, a: nat, b: nat)
    requires a <= b
    ensures WriteCost(size, a) <= WriteCost(size, b)
  {
    BlocksMono(Max(size, a), Max(size, b));
    hide BlocksFor;
  }

  /** Writing up to a and then up to b. */
  lemma CostTwice(size: nat, a: nat, b: nat)
    requires a <= b
    ensures WriteCost(size, b) == WriteCost(size, a) + WriteCost(Max(size, a), b)
  {
    hide BlocksFor, SlotsFor;
    assert Max(Max(size, a), b) == Max(size, b);
  }

  /** How much of a write of len bytes at off filewrite carries out: all of it, or the chunks that fit the file. */
  function Accepted(off: nat, len: nat): (n: nat)
  {
    if off + len <= MAXFILE * BSIZE then len
    else if off <= MAXFILE * BSIZE then (MAXFILE * BSIZE - off) / CHUNK * CHUNK else 0
  }

  lemma AcceptedChunk(off: nat, len: nat, i: nat, n: nat)
    requires i < len && i % CHUNK == 0 && off + i <= MAXFILE * BSIZE && n == if len - i > CHUNK then CHUNK else len - i
    ensures off + i + n <= MAXFILE * BSIZE ==> i + n <= Accepted(off, len)
    ensures off + i + n > MAXFILE * BSIZE ==> i == Accepted(off, len)
  {
    WholeChunks(MAXFILE * BSIZE - off, i);
  }

  /** The whole chunks in room bytes, seen from a multiple i of the chunk. */
  lemma WholeChunks(room: nat, i: nat)
    requires i % CHUNK == 0
    ensures i + CHUNK <= room ==> i + CHUNK <= room / CHUNK * CHUNK
    ensures i <= room < i + CHUNK ==> room / CHUNK * CHUNK == i
  {
    var k, q := i / CHUNK, room / CHUNK;
    assert CHUNK == 1536;
    assert i == k * 1536 && q * 1536 <= room < q * 1536 + 1536;
  }

  lemma AcceptedAll(off: nat, len: nat)
    requires off <= MAXFILE * BSIZE
    ensures off + len <= MAXFILE * BSIZE ==> Accepted(off, len) == len
    ensures off + len > MAXFILE * BSIZE ==> Accepted(off, len) < len
  {
    assert CHUNK == 1536;
  }

  lemma NoCost(size: nat, off: nat)
    requires off <= size
    ensures WriteCost(size, off) == 0
  {
    hide BlocksFor, SlotsFor;
  }

  // ---- the chunks of filewrite ----

  /** filewrite has written the first k bytes of src at off of file i, and allocated what they need. */
  ghost predicate Sofar(sb: Super, fs0: Fs, fs: Fs, i: nat, off: nat, src: seq<Byte>, k: nat)
  {
    && WfFs(sb, fs0) && i < |fs0.inodes| && WfFs(sb, fs) && |fs.inodes| == |fs0.inodes|
    && k <= |src| && (k == |src| || k % CHUNK == 0)
    && if off > fs0.inodes[i].size then k == 0 && fs == fs0 else
         && Written(sb, fs0, fs, i, off, src[..k]) && fs.inodes[i].size == Max(fs0.inodes[i].size, off + k)
         && off + k <= MAXFILE * BSIZE
         && |FreeBlocks(sb, fs.blocks)| + WriteCost(fs0.inodes[i].size, off + k) == |FreeBlocks(sb, fs0.blocks)|
  }

  /** Bytes that filewrite writes unless the disk fills up. */
  ghost function Doable(fs: Fs, i: nat, off: nat, len: nat): (n: nat)
    requires i < |fs.inodes|
  {
    if off <= fs.inodes[i].size then Accepted(off, len) else 0
  }

  lemma SofarStart(sb: Super, fs: Fs, i: nat, off: nat, src: seq<Byte>)
    requires WfFs(sb, fs) && i < |fs.inodes|
    ensures Sofar(sb, fs, fs, i, off, src, 0)
  {
    hide WfFs, Written, FreeBlocks, WriteCost, AllocTo;
    assert src[..0] == [];
    WfFileOf(sb, fs, i);
    if off <= fs.inodes[i].size {
      WrittenNothing(sb, fs, i, off);
      NoCost(fs.inodes[i].size, off);
    }
  }

  lemma SofarFacts(sb: Super, fs0: Fs, fs: Fs, i: nat, off: nat, src: seq<Byte>, k: nat)
    requires Sofar(sb, fs0, fs, i, off, src, k)
    ensures WfFs(sb, fs) && i < |fs.inodes| == |fs0.inodes|
  {
    hide WfFs, Written;
  }

  lemma ChunkNext(len: nat, k: nat, n: nat)
    requires k < len && k % CHUNK == 0 && n == if len - k > CHUNK then CHUNK else len - k
    ensures k + n <= len && (k + n == len || (k + n) % CHUNK == 0)
  {
    assert CHUNK == 1536;
  }

  lemma SofarChunk(sb: Super, fs0: Fs, fs: Fs, fs': Fs, i: nat, off: nat, src: seq<Byte>, k: nat, n: nat)
    requires Sofar(sb, fs0, fs, i, off, src, k) && k < |src| && n == if |src| - k > CHUNK then CHUNK else |src| - k
    requires off + k <= fs.inodes[i].size && off + k + n <= MAXFILE * BSIZE
    requires Written(sb, fs, fs', i, off + k, src[k..k + n])
    requires |FreeBlocks(sb, fs'.blocks)| + WriteCost(fs.inodes[i].size, off + k + n) == |FreeBlocks(sb, fs.blocks)|
    ensures Sofar(sb, fs0, fs', i, off, src, k + n)
  {
    hide WfFs, Written, FreeBlocks, WriteCost;
    ChunkNext(|src|, k, n);
    CostTwice(fs0.inodes[i].size, off + k, off + k + n);
    WrittenWf(sb, fs, fs', i, off + k, src[k..k + n]);
    WrittenTwice(sb, fs0, fs, fs', i, off, src[..k], src[k..k + n]);
    WrittenSize(sb, fs, fs', i, off + k, src[k..k + n]);
    assert src[..k] + src[k..k + n] == src[..k + n];
  }

  /** The chunk at k finds too few free blocks. */
  lemma SofarFull(sb: Super, fs0: Fs, fs: Fs, i: nat, off: nat, src: seq<Byte>, k: nat, n: nat)
    requires Sofar(sb, fs0, fs, i, off, src, k) && k < |src| && n == if |src| - k > CHUNK then CHUNK else |src| - k
    requires off + k <= fs.inodes[i].size && off + k + n <= MAXFILE * BSIZE
    requires WriteCost(fs.inodes[i].size, off + k + n) > |FreeBlocks(sb, fs.blocks)|
    ensures off <= fs0.inodes[i].size
    ensures WriteCost(fs0.inodes[i].size, off + Accepted(off, |src|)) > |FreeBlocks(sb, fs0.blocks)|
  {
    hide WfFs, Written, FreeBlocks, WriteCost, Accepted;
    CostTwice(fs0.inodes[i].size, off + k, off + k + n);
    AcceptedChunk(off, |src|, k, n);
    CostMono(fs0.inodes[i].size, off + k + n, off + Accepted(off, |src|));
  }

  /** filewrite ends, at the end of src or because writei rejects the chunk at k. */
  lemma SofarEnds(sb: Super, fs0: Fs, fs: Fs, i: nat, off: nat, src: seq<Byte>, k: nat, n: nat)
    requires Sofar(sb, fs0, fs, i, off, src, k)
    requires k < |src| ==> && n == (if |src| - k > CHUNK then CHUNK else |src| - k)
                           && (off + k > fs.inodes[i].size || off + k + n > MAXFILE * BSIZE)
    ensures k == Doable(fs0, i, off, |src|) <= |src|
    ensures if off <= fs0.inodes[i].size then Written(sb, fs0, fs, i, off, src[..k]) else fs == fs0
    ensures off <= fs0.inodes[i].size ==>
              WriteCost(fs0.inodes[i].size, off + Accepted(off, |src|)) <= |FreeBlocks(sb, fs0.blocks)|
    ensures k == |src| <==> src == [] || (off <= fs0.inodes[i].size && off + |src| <= MAXFILE * BSIZE)
  {
    hide WfFs, Written, FreeBlocks, WriteCost, Accepted;
    if off <= fs0.inodes[i].size {
      AcceptedAll(off, |src|);
      if k < |src| { AcceptedChunk(off, |src|, k, n); }
    }
  }

  // ---- whose blocks are changed ----

  /** Block c is reached from inode i. */
  ghost predicate Mine(fs: Fs, i: nat, c: nat)
  {
    i < |fs.inodes| && exists l :: 0 <= l < NSLOTS && RefAt(fs, i, l) == c
  }

  /** Only blocks of inode i and the free map change, and no slot but empty ones of inode i. */
  ghost predicate OwnChanges(sb: Super, fs0: Fs, fs: Fs, i: nat)
    requires i < |fs0.inodes|
  {
    && |fs.inodes| == |fs0.inodes| && |fs.blocks| == |fs0.blocks|
    && (forall j, l :: 0 <= j < |fs0.inodes| && 0 <= l < NSLOTS && (j != i || RefAt(fs0, j, l) != 0) ==>
          RefAt(fs, j, l) == RefAt(fs0, j, l))
    && (forall c :: sb.datastart <= c < |fs0.blocks| && fs.blocks[c] != fs0.blocks[c] ==> Mine(fs, i, c))
    && forall c :: 0 <= c < sb.bmapstart && c < |fs0.blocks| ==> fs.blocks[c] == fs0.blocks[c]
  }

  lemma OwnSame(sb: Super, fs: Fs, i: nat)
    requires i < |fs.inodes|
    ensures OwnChanges(sb, fs, fs, i)
  {
    hide RefAt;
  }

  lemma OwnAgain(sb: Super, fs0: Fs, fs1: Fs, fs2: Fs, i: nat)
    requires Owns(sb, fs0, {}, {}) && i < |fs0.inodes| && OwnChanges(sb, fs0, fs1, i) && OwnChanges(sb, fs1, fs2, i)
    ensures OwnChanges(sb, fs0, fs2, i)
  {
    hide RefAt, Bitmap, RefsDistinct, RefsInData;
    forall c | sb.datastart <= c < |fs0.blocks| && fs2.blocks[c] != fs0.blocks[c] ensures Mine(fs2, i, c) {
      if fs2.blocks[c] == fs1.blocks[c] {
        var l :| 0 <= l < NSLOTS && RefAt(fs1, i, l) == c;
        assert c > 0;
        assert RefAt(fs2, i, l) == c;
      }
    }
  }

  /** One slot of inode i filled with block b: the free map, b and x are the only blocks changed. */
  lemma OwnLink(sb: Super, fs: Fs, fs': Fs, i: nat, k: nat, b: nat, x: nat)
    requires Owns(sb, fs, {}, {}) && i < |fs.inodes| && k < NSLOTS && OneSlot(fs, fs', i, k) && RefAt(fs, i, k) == 0
    requires RefAt(fs', i, k) == b && (x == 0 || Mine(fs', i, x)) && |fs'.blocks| == |fs.blocks| && b < sb.size
    requires forall c :: 0 <= c < |fs.blocks| && c != Bblock(sb, b) && c != b && (x == 0 || c != x) ==>
             fs'.blocks[c] == fs.blocks[c]
    requires b >= sb.bmapstart && (x == 0 || x >= sb.bmapstart)
    ensures OwnChanges(sb, fs, fs', i)
  {
    hide RefAt, Bitmap, RefsDistinct, RefsInData;
    BblockIsMeta(sb, fs, b);
    assert Mine(fs', i, b);
  }

  lemma InData(sb: Super, fs: Fs, i: nat, k: nat)
    requires Owns(sb, fs, {}, {}) && i < |fs.inodes| && k < NSLOTS && RefAt(fs, i, k) != 0
    ensures sb.bmapstart <= sb.datastart <= RefAt(fs, i, k) < sb.size && Mine(fs, i, RefAt(fs, i, k))
  {
    hide RefAt, Bitmap, RefsDistinct;
  }

  /** A piece stored in a block of inode i. */
  lemma OwnStore(sb: Super, fs: Fs, fs': Fs, i: nat, k: nat)
    requires Owns(sb, fs, {}, {}) && i < |fs.inodes| && k < NSLOTS && SameRefs(fs, fs') && RefAt(fs, i, k) != 0
    requires forall c :: 0 <= c < |fs.blocks| && c != RefAt(fs, i, k) ==> fs'.blocks[c] == fs.blocks[c]
    ensures OwnChanges(sb, fs, fs', i)
  {
    hide RefAt, Bitmap, RefsDistinct;
    assert RefAt(fs', i, k) == RefAt(fs, i, k);
    assert Mine(fs', i, RefAt(fs, i, k));
  }

  /** writei's loop and an iupdate, or none. */
  /** An empty entry of the indirect block filled with a new block: what changes, and how many blocks stay free. */
  lemma WordFilled(sb: Super, fs: Fs, i: nat, j: nat, b: nat, L: set<nat>)
    requires Owns(sb, fs, {}, {}) && i < |fs.inodes| && j < NINDIRECT
    requires fs.inodes[i].addrs[INDIRECT] != 0 && RefAt(fs, i, INDIRECT + 1 + j) == 0
    requires b < sb.size && !BitAt(sb, fs.blocks, b)
    ensures fs.inodes[i].addrs[INDIRECT] < |AllocBlock(sb, fs.blocks, b)|
    ensures var a := fs.inodes[i].addrs[INDIRECT];
            var fs' := WithWord(fs.(blocks := AllocBlock(sb, fs.blocks, b)), a, j, b);
            && OwnChanges(sb, fs, fs', i) && |FreeBlocks(sb, fs'.blocks)| + 1 == |FreeBlocks(sb, fs.blocks)|
            && ChangesLogged(fs.blocks, L, fs'.blocks, L + {Bblock(sb, b), b, a})
  {
    hide BitAt, Bit, SetBit, RefAt, Word, SetWord, FreeBlocks, RefsDistinct, RefsInData, Bitmap, Mine, DataKept;
    LinkWord(sb, fs, i, j, b);
    var a, r := fs.inodes[i].addrs[INDIRECT], AllocBlock(sb, fs.blocks, b);
    var fs' := WithWord(fs.(blocks := r), a, j, b);
    AddrSlot(fs, i, INDIRECT);
    AddrSlot(fs', i, INDIRECT);
    InData(sb, fs, i, INDIRECT);
    InData(sb, fs', i, INDIRECT);
    InData(sb, fs', i, INDIRECT + 1 + j);
    WordTakesOne(sb, fs, a, b, SetWord(r[a], j, b));
    OwnLink(sb, fs, fs', i, INDIRECT + 1 + j, b, a);
  }

  /** A piece stored after bmap: what changes, and how many blocks stay free. */
  lemma PieceStored(sb: Super, fs: Fs, fs1: Fs, fs': Fs, i: nat, k: nat, x: Block, l0: set<nat>, l1: set<nat>)
    requires Owns(sb, fs, {}, {}) && Owns(sb, fs1, {}, {}) && i < |fs.inodes| && k < NSLOTS
    requires |fs1.inodes| == |fs.inodes| && RefAt(fs1, i, k) != 0
    requires OwnChanges(sb, fs, fs1, i) && ChangesLogged(fs.blocks, l0, fs1.blocks, l1)
    requires RefAt(fs1, i, k) < |fs1.blocks| && fs' == fs1.(blocks := fs1.blocks[RefAt(fs1, i, k) := x])
    requires SameRefs(fs1, fs')
    ensures OwnChanges(sb, fs, fs', i) && FreeBlocks(sb, fs'.blocks) == FreeBlocks(sb, fs1.blocks)
    ensures ChangesLogged(fs.blocks, l0, fs'.blocks, l1 + {RefAt(fs1, i, k)})
    ensures RefAt(fs', i, INDIRECT) == RefAt(fs1, i, INDIRECT)
  {
    hide RefAt, FreeBlocks, RefsDistinct, RefsInData, Bitmap, OwnChanges;
    assert |fs1.inodes| == |fs.inodes| by { OwnSize(sb, fs, fs1, i); }
    InData(sb, fs1, i, k);
    StoreFree(sb, fs1, RefAt(fs1, i, k), x);
    OwnStore(sb, fs1, fs', i, k);
    OwnAgain(sb, fs, fs1, fs', i);
  }

  lemma BmapFacts(sb: Super, fs: Fs, fs': Fs, i: nat, n: nat)
    requires i < |fs.inodes| && n < MAXFILE && BmapEffect(sb, fs, fs', i, n)
    ensures Owns(sb, fs', {}, {}) && |fs'.inodes| == |fs.inodes| && RefAt(fs', i, SlotOf(n)) != 0
    ensures n < NDIRECT || RefAt(fs, i, INDIRECT) != 0 ==> RefAt(fs', i, INDIRECT) == RefAt(fs, i, INDIRECT)
    ensures n >= NDIRECT ==> RefAt(fs', i, INDIRECT) != 0
  {
    hide RefAt, Owns, DataKept;
  }

  lemma OwnSize(sb: Super, fs: Fs, fs': Fs, i: nat)
    requires i < |fs.inodes| && OwnChanges(sb, fs, fs', i)
    ensures |fs'.inodes| == |fs.inodes| && |fs'.blocks| == |fs.blocks|
  {
    hide RefAt, Mine;
  }

  lemma WriteFootprint(sb: Super, fs0: Fs, fs1: Fs, fs: Fs, i: nat)
    requires WfFs(sb, fs0) && i < |fs0.inodes| && OwnChanges(sb, fs0, fs1, i) && SameRefs(fs1, fs)
    requires forall j :: 0 <= j < |fs0.inodes| && j != i ==> fs.inodes[j] == fs0.inodes[j]
    requires forall c :: 0 <= c < |fs1.blocks| && c != Iblock(sb, i) ==> fs.blocks[c] == fs1.blocks[c]
    requires Iblock(sb, i) < |fs1.blocks|
    requires fs.blocks[Iblock(sb, i)] == fs1.blocks[Iblock(sb, i)]
             || fs.blocks[Iblock(sb, i)] == PutDinode(fs1.blocks[Iblock(sb, i)], i % IPB, fs.inodes[i])
    ensures Footprint(sb, fs0, fs, i)
  {
    hide RefAt, Bitmap, RefsDistinct, RefsInData, PutDinode, WfFile, Synced;
    PutDinodeFrame(fs1.blocks[Iblock(sb, i)], i % IPB, fs.inodes[i]);
    forall c | sb.datastart <= c < sb.size && fs.blocks[c] != fs0.blocks[c] ensures Mine(fs, i, c) {
      assert Mine(fs1, i, c);
      var l :| 0 <= l < NSLOTS && RefAt(fs1, i, l) == c;
      assert RefAt(fs, i, l) == c;
    }
  }

  /** What a transaction on inode i leaves alone: other inodes, their slots and blocks, and all other inode bytes. */
  ghost predicate Footprint(sb: Super, fs: Fs, fs': Fs, i: nat)
    requires WfLayout(sb, fs) && i < |fs.inodes|
  {
    && |fs'.inodes| == |fs.inodes| && |fs'.blocks| == |fs.blocks|
    && (forall j :: 0 <= j < |fs.inodes| && j != i ==> fs'.inodes[j] == fs.inodes[j])
    && (forall j, l :: 0 <= j < |fs.inodes| && 0 <= l < NSLOTS && j != i ==> RefAt(fs', j, l) == RefAt(fs, j, l))
    && (forall c :: 0 <= c < sb.bmapstart && c != Iblock(sb, i) ==> fs'.blocks[c] == fs.blocks[c])
    && (forall p :: 0 <= p < BSIZE && p / 64 != i % IPB ==> fs'.blocks[Iblock(sb, i)][p] == fs.blocks[Iblock(sb, i)][p])
    && forall c :: sb.datastart <= c < sb.size && fs'.blocks[c] != fs.blocks[c] ==> Mine(fs', i, c)
  }

  /** iupdate rewrites the bytes of its own inode only. */
  lemma PutDinodeFrame(b: Block, slot: nat, ip: Inode)
    requires slot < IPB
    ensures forall p :: 0 <= p < BSIZE && p / 64 != slot ==> PutDinode(b, slot, ip)[p] == b[p]
  {
    hide Word, SetWord, DinodeWord, PutWords;
    forall p | 0 <= p < BSIZE && p / 64 != slot ensures PutDinode(b, slot, ip)[p] == b[p] {
      assert !(INODE_WORDS * slot <= p / 4 < INODE_WORDS * slot + INODE_WORDS);
    }
  }

  /** One transaction of filewrite. */
  datatype Chunk = Chunk(i: nat, off: nat, src: seq<Byte>)

  /** Chunk c takes fs to fs', changing only blocks of L past the log, at most MAXOPBLOCKS of them. */
  ghost predicate ChunkLogged(sb: Super, fs: Fs, fs': Fs, c: Chunk, L: set<nat>)
  {
    && WfFs(sb, fs) && c.i < |fs.inodes| && c.off <= fs.inodes[c.i].size && Written(sb, fs, fs', c.i, c.off, c.src)
    && |fs'.blocks| == |fs.blocks| && |L| <= MAXOPBLOCKS && Footprint(sb, fs, fs', c.i)
    && forall b :: 0 <= b < |fs.blocks| && (b < sb.inodestart || b !in L) ==> fs'.blocks[b] == fs.blocks[b]
  }

  /** The same for a truncation of inode i. */
  ghost predicate TruncLogged(sb: Super, fs: Fs, fs': Fs, i: nat, L: set<nat>)
  {
    && WfFs(sb, fs) && i < |fs.inodes| && TruncatedTo(sb, fs, fs', i)
    && |fs'.blocks| == |fs.blocks| && |L| <= MAXOPBLOCKS && Footprint(sb, fs, fs', i)
    && forall b :: 0 <= b < |fs.blocks| && (b < sb.inodestart || b !in L) ==> fs'.blocks[b] == fs.blocks[b]
  }

  /** itrunc on its own, when its blocks are within the budget. */
  lemma TruncLoggedIs(sb: Super, fs: Fs, fs': Fs, i: nat, L: set<nat>)
    requires WfFs(sb, fs) && i < |fs.inodes| && TruncatedTo(sb, fs, fs', i) && Footprint(sb, fs, fs', i)
    requires ChangesLogged(fs.blocks, {}, fs'.blocks, L) && |MapBlocks(sb, fs, i, AllSlots())| < MAXOPBLOCKS
    requires L == MapBlocks(sb, fs, i, AllSlots()) + {Iblock(sb, i)}
    ensures TruncLogged(sb, fs, fs', i, L)
  {
    hide WfFs, TruncatedTo, MapBlocks, RefAt, Mine;
    TruncBudget(sb, fs, i);
    LogFirst(sb, fs);
    assert sb.inodestart <= Iblock(sb, i);
  }

  /** The file systems between the chunks of a filewrite. */
  ghost predicate ChunkPath(sb: Super, states: seq<Fs>, chunks: seq<Chunk>, logs: seq<set<nat>>)
  {
    && |states| == |chunks| + 1 && |logs| == |chunks|
    && forall t :: 0 <= t < |chunks| ==> ChunkLogged(sb, states[t], states[t + 1], chunks[t], logs[t])
  }

  lemma PathMore(sb: Super, states: seq<Fs>, chunks: seq<Chunk>, logs: seq<set<nat>>, fs: Fs, c: Chunk, L: set<nat>)
    requires ChunkPath(sb, states, chunks, logs) && ChunkLogged(sb, states[|chunks|], fs, c, L)
    ensures ChunkPath(sb, states + [fs], chunks + [c], logs + [L])
  {
    hide ChunkLogged;
  }

  /** The free-map blocks that hold the bits of what the slots K of inode i lead to. */
  ghost function MapBlocks(sb: Super, fs: Fs, i: nat, K: set<nat>): (r: set<nat>)
    requires i < |fs.inodes|
  {
    set k | k in K && k < NSLOTS && RefAt(fs, i, k) != 0 :: Bblock(sb, RefAt(fs, i, k))
  }

  lemma LogFirst(sb: Super, fs: Fs)
    requires WfFs(sb, fs)
    ensures sb.inodestart <= sb.bmapstart <= sb.size == |fs.blocks|
  {}

  lemma ChangedInode(b0: Disk, l0: set<nat>, b1: Disk, l1: set<nat>, b2: Disk, l2: set<nat>, c: nat)
    requires ChangesLogged(b0, l0, b1, l1) && |b2| == |b1| && l2 == l1 + {c}
    requires forall b :: 0 <= b < |b1| && b != c ==> b2[b] == b1[b]
    ensures ChangesLogged(b0, l0, b2, l2)
  {}

  /** writei's loop leaves the log, and everything else before the free map, alone. */
  lemma LogKept(sb: Super, fs0: Fs, fs: Fs, i: nat, off: nat, src: seq<Byte>)
    requires i < |fs0.inodes| && Writing(sb, fs0, fs, i, off, src, |src|) && sb.bmapstart <= |fs0.blocks|
    ensures |fs.blocks| == |fs0.blocks| && forall c :: 0 <= c < sb.bmapstart ==> fs.blocks[c] == fs0.blocks[c]
  {
    hide Owns, Alloc, BytesKept, FileByte;
  }

  lemma WritingFacts(sb: Super, fs0: Fs, fs: Fs, i: nat, off: nat, src: seq<Byte>)
    requires i < |fs0.inodes| && Writing(sb, fs0, fs, i, off, src, |src|)
    ensures |fs.inodes| == |fs0.inodes| && Owns(sb, fs, {}, {}) && fs.inodes[i].size == fs0.inodes[i].size
    ensures var ms := Sizes(fs0.inodes); Alloc(fs, ms[i := Max(ms[i], BlocksFor(off + |src|))])
  {
    hide Owns, Alloc, BytesKept, FileByte;
  }

  lemma ChunkDone(sb: Super, fs: Fs, fs': Fs, c: Chunk, L: set<nat>)
    requires WfFs(sb, fs) && c.i < |fs.inodes| && c.off <= fs.inodes[c.i].size
             && Written(sb, fs, fs', c.i, c.off, c.src)
    requires Footprint(sb, fs, fs', c.i)
    requires |L| <= MAXOPBLOCKS && ChangesLogged(fs.blocks, {}, fs'.blocks, L) && |fs'.blocks| == |fs.blocks|
    requires forall b :: 0 <= b < sb.inodestart && b < |fs'.blocks| ==> fs'.blocks[b] == fs.blocks[b]
    ensures ChunkLogged(sb, fs, fs', c, L)
  {
    hide WfFs, Written, Footprint;
  }

  lemma WriteiFootprint(sb: Super, fs0: Fs, fs1: Fs, fs: Fs, i: nat, off: nat, src: seq<Byte>)
    requires WfFs(sb, fs0) && i < |fs0.inodes| && Writing(sb, fs0, fs1, i, off, src, |src|)
             && OwnChanges(sb, fs0, fs1, i)
    requires fs == fs1 ||
             (off + |src| <= UINT_MAX && i < |fs1.inodes| &&
              var g := WithSize(fs1, i, off + |src|);
              && fs.inodes == g.inodes && SameRefs(g, fs) && SameRefs(fs1, g)
                   && Iblock(sb, i) < |fs1.blocks| == |fs.blocks|
              && (forall b :: 0 <= b < |g.blocks| && b != Iblock(sb, i) ==> fs.blocks[b] == g.blocks[b])
              && fs.blocks[Iblock(sb, i)] == PutDinode(g.blocks[Iblock(sb, i)], i % IPB, fs.inodes[i]))
    ensures WfLayout(sb, fs0) && Footprint(sb, fs0, fs, i)
  {
    hide RefAt, Bitmap, RefsDistinct, RefsInData, PutDinode, WfFile, Synced, Alloc, BytesKept, FileByte, OwnChanges,
         Footprint;
    WriteFootprint(sb, fs0, fs1, fs, i);
  }

  /** The end of writei took fs1 to fs: the inode has its new size, also on disk, and nothing else has changed. */
  ghost predicate Lengthened(sb: Super, fs1: Fs, fs: Fs, i: nat, size: Word32, ms: seq<nat>)
    requires i < |fs1.inodes|
  {
    var g := WithSize(fs1, i, size);
    && fs.inodes == g.inodes && |fs.blocks| == |g.blocks| && SameRefs(fs1, g) && SameRefs(g, fs)
    && Owns(sb, fs, {}, {}) && Alloc(fs, ms) && SyncedAt(sb, fs, i) && Iblock(sb, i) < |fs.blocks|
    && (forall j :: 0 <= j < |g.inodes| && j != i && WfLayout(sb, g) && SyncedAt(sb, g, j) ==> SyncedAt(sb, fs, j))
    && (forall b :: 0 <= b < |g.blocks| && b != Iblock(sb, i) ==> fs.blocks[b] == g.blocks[b])
    && fs.blocks[Iblock(sb, i)] == PutDinode(g.blocks[Iblock(sb, i)], i % IPB, fs.inodes[i])
  }

  lemma LengthenDone(sb: Super, fs0: Fs, fs1: Fs, fs: Fs, l0: set<nat>, l1: set<nat>, i: nat, off: nat, src: seq<Byte>)
    requires WfFs(sb, fs0) && i < |fs0.inodes| && off <= fs0.inodes[i].size < off + |src| <= UINT_MAX
    requires Writing(sb, fs0, fs1, i, off, src, |src|) && OwnChanges(sb, fs0, fs1, i)
    requires Lengthened(sb, fs1, fs, i, off + |src|, Sizes(fs0.inodes)[i := BlocksFor(off + |src|)])
    requires ChangesLogged(fs0.blocks, l0, fs1.blocks, l1)
    ensures Written(sb, fs0, fs, i, off, src) && Footprint(sb, fs0, fs, i)
    ensures ChangesLogged(fs0.blocks, l0, fs.blocks, l1 + {Iblock(sb, i)})
    ensures |fs.blocks| == |fs0.blocks| && forall c :: 0 <= c < sb.inodestart ==> fs.blocks[c] == fs0.blocks[c]
    ensures FreeBlocks(sb, fs.blocks) == FreeBlocks(sb, fs1.blocks)
  {
    hide RefAt, PutDinode, SyncedAt, AllocTo, BlocksFor, BytesKept, Written, OwnChanges, Bitmap, RefsDistinct,
         RefsInData;
    var c := Iblock(sb, i);
    assert c < sb.bmapstart;
    DoneGrown(sb, fs0, fs1, fs, i, off, src);
    ChangedInode(fs0.blocks, l0, fs1.blocks, l1, fs.blocks, l1 + {c}, c);
    WriteiFootprint(sb, fs0, fs1, fs, i, off, src);
    SameFree(sb, fs1, fs.blocks);
  }

  lemma TruncFootprint(sb: Super, fs0: Fs, fs1: Fs, fs: Fs, i: nat)
    requires WfFs(sb, fs0) && i < |fs0.inodes| && fs1.inodes == fs.inodes == fs0.inodes[i := Emptied(fs0.inodes[i])]
    requires Freed(sb, fs0, fs1.blocks, i, AllSlots()) && SameRefs(fs1, fs)
    requires forall j, k :: 0 <= j < |fs1.inodes| && 0 <= k < NSLOTS && j != i ==> RefAt(fs1, j, k) == RefAt(fs0, j, k)
    requires Iblock(sb, i) < |fs1.blocks| == |fs.blocks|
    requires forall b :: 0 <= b < |fs1.blocks| && b != Iblock(sb, i) ==> fs.blocks[b] == fs1.blocks[b]
    requires fs.blocks[Iblock(sb, i)] == PutDinode(fs1.blocks[Iblock(sb, i)], i % IPB, fs.inodes[i])
    ensures Footprint(sb, fs0, fs, i)
  {
    hide RefAt, Bit, Bitmap, RefsDistinct, RefsInData, PutDinode, WfFile, Synced, OwnedVia;
    PutDinodeFrame(fs1.blocks[Iblock(sb, i)], i % IPB, fs.inodes[i]);
  }

  lemma ChangesNone(blocks: Disk, logged: set<nat>)
    ensures ChangesLogged(blocks, logged, blocks, logged)
  {}

  lemma NoMapBlocks(sb: Super, fs: Fs, i: nat)
    requires i < |fs.inodes|
    ensures MapBlocks(sb, fs, i, {}) == {}
  {}

  lemma MapMore(sb: Super, fs: Fs, i: nat, K: set<nat>, k: nat)
    requires i < |fs.inodes| && k < NSLOTS
    ensures MapBlocks(sb, fs, i, K + {k}) == MapBlocks(sb, fs, i, K) + if RefAt(fs, i, k) == 0 then {}
            else {Bblock(sb, RefAt(fs, i, k))}
  {
    hide RefAt, Bblock;
    var r, x := MapBlocks(sb, fs, i, K), RefAt(fs, i, k);
    forall c | c in MapBlocks(sb, fs, i, K + {k}) ensures c in r || (x != 0 && c == Bblock(sb, x)) {
      var m :| m in K + {k} && m < NSLOTS && RefAt(fs, i, m) != 0 && Bblock(sb, RefAt(fs, i, m)) == c;
      if m != k { assert m in K; }
    }
  }

  lemma MapMono(sb: Super, fs: Fs, i: nat, K: set<nat>, L: set<nat>)
    requires i < |fs.inodes| && forall k :: k in K ==> k in L
    ensures MapBlocks(sb, fs, i, K) <= MapBlocks(sb, fs, i, L)
  {}

  lemma MapRest(sb: Super, fs: Fs, i: nat, K: set<nat>)
    requires i < |fs.inodes| && fs.inodes[i].addrs[INDIRECT] == 0 && forall k :: k in K <==> 0 <= k < NDIRECT
    ensures MapBlocks(sb, fs, i, K) == MapBlocks(sb, fs, i, AllSlots())
  {
    hide Bblock;
    forall k | k in AllSlots() && RefAt(fs, i, k) != 0 ensures k in K { assert k < NSLOTS; }
  }

  /**
    What itrunc logs: one inode block and the file's free-map blocks, within the budget exactly when those are fewer
    than MAXOPBLOCKS.
   */
  lemma TruncBudget(sb: Super, fs: Fs, i: nat)
    requires WfFs(sb, fs) && i < |fs.inodes|
    ensures var logged := MapBlocks(sb, fs, i, AllSlots()) + {Iblock(sb, i)};
            && |logged| == |MapBlocks(sb, fs, i, AllSlots())| + 1
            && (|logged| <= MAXOPBLOCKS <==> |MapBlocks(sb, fs, i, AllSlots())| < MAXOPBLOCKS)
    ensures |MapBlocks(sb, fs, i, AllSlots())| <= sb.size / BPB + 1
    ensures sb.size < (MAXOPBLOCKS - 1) * BPB ==> |MapBlocks(sb, fs, i, AllSlots())| < MAXOPBLOCKS
  {
    hide RefAt, Synced, Bitmap, RefsDistinct, WfFile;
    var r, n := MapBlocks(sb, fs, i, AllSlots()), sb.size / BPB + 1;
    forall c | c in r ensures sb.bmapstart <= c < sb.bmapstart + n {
      var k :| k in AllSlots() && k < NSLOTS && RefAt(fs, i, k) != 0 && Bblock(sb, RefAt(fs, i, k)) == c;
      assert RefAt(fs, i, k) < sb.size;
      assert RefAt(fs, i, k) / BPB <= sb.size / BPB;
    }
    SubsetCard(r, Interval(sb.bmapstart, n));
    assert Iblock(sb, i) < sb.bmapstart;
  }

  // ---- how many blocks a write logs ----

  ghost function IndirectSet(fs: Fs, i: nat): (r: set<nat>)
    requires i < |fs.inodes|
    ensures |r| <= 1
  {
    if RefAt(fs, i, INDIRECT) == 0 then {} else {RefAt(fs, i, INDIRECT)}
  }

  /** Blocks visited by a write of tot bytes at off. */
  function Visited(off: nat, tot: nat): (n: int)
  {
    if tot == 0 then 0 else BlocksFor(off + tot) - off / BSIZE
  }

  /**
    After tot bytes: what was logged is the data blocks D, the bitmap blocks M and the
    indirect block; M has at most one block for each block allocated so far.
   */
  ghost predicate LogsWithin(fs0: Fs, fs: Fs, logged0: set<nat>, logged: set<nat>, i: nat, off: nat, tot: nat,
          D: set<nat>, M: set<nat>)
    requires i < |fs0.inodes|
  {
    && |fs.inodes| == |fs0.inodes|
    && logged <= logged0 + D + M + IndirectSet(fs, i)
    && |D| <= Visited(off, tot)
    && |M| <= Max(Sizes(fs0.inodes)[i], BlocksFor(off + tot)) - Sizes(fs0.inodes)[i]
              + (if RefAt(fs0, i, INDIRECT) == 0 != RefAt(fs, i, INDIRECT) then 1 else 0)
    && (RefAt(fs0, i, INDIRECT) != 0 ==> RefAt(fs, i, INDIRECT) == RefAt(fs0, i, INDIRECT))
  }

  lemma LogsStart(fs: Fs, logged: set<nat>, i: nat, off: nat)
    requires i < |fs.inodes| && off <= fs.inodes[i].size
    ensures LogsWithin(fs, fs, logged, logged, i, off, 0, {}, {})
  {
    hide RefAt;
  }

  lemma UnionCard(a: set<nat>, b: set<nat>)
    ensures |a + b| <= |a| + |b|
  {
    assert a + b == a + (b - a);
    assert |b - a| <= |b| by { assert b == (b - a) + (b * a); }
  }

  lemma LogsStep(fs0: Fs, fs1: Fs, fs2: Fs, l0: set<nat>, l1: set<nat>, l2: set<nat>, i: nat, off: nat, tot: nat,
          len: nat, D: set<nat>, M: set<nat>, addr: nat, maps: set<nat>)
    requires i < |fs0.inodes| && LogsWithin(fs0, fs1, l0, l1, i, off, tot, D, M) && |fs2.inodes| == |fs1.inodes|
    requires 1 <= len && (off + tot) % BSIZE + len <= BSIZE && (tot == 0 || (off + tot) % BSIZE == 0)
    requires l2 <= l1 + maps + {addr} + IndirectSet(fs2, i)
    requires |maps| <= (if (off + tot) / BSIZE < Max(Sizes(fs0.inodes)[i], BlocksFor(off + tot)) then 0 else 1)
                       + (if RefAt(fs1, i, INDIRECT) == 0 != RefAt(fs2, i, INDIRECT) then 1 else 0)
    requires RefAt(fs1, i, INDIRECT) != 0 ==> RefAt(fs2, i, INDIRECT) == RefAt(fs1, i, INDIRECT)
    ensures LogsWithin(fs0, fs2, l0, l2, i, off, tot + len, D + {addr}, M + maps)
  {
    hide RefAt, BlocksFor, IndirectSet, Visited, Max;
    IndirectStays(fs1, fs2, i);
    LogsSubset(l0, l1, l2, D, M, IndirectSet(fs1, i), IndirectSet(fs2, i), addr, maps);
    VisitedStep(off, tot, len);
    AllocStep(Sizes(fs0.inodes)[i], off + tot, len);
    UnionCard(D, {addr});
    UnionCard(M, maps);
  }

  lemma IndirectStays(fs1: Fs, fs2: Fs, i: nat)
    requires i < |fs1.inodes| == |fs2.inodes|
             && (RefAt(fs1, i, INDIRECT) != 0 ==> RefAt(fs2, i, INDIRECT) == RefAt(fs1, i, INDIRECT))
    ensures IndirectSet(fs1, i) <= IndirectSet(fs2, i)
  {
    hide RefAt;
  }

  lemma VisitedStep(off: nat, tot: nat, len: nat)
    requires 1 <= len && (off + tot) % BSIZE + len <= BSIZE && (tot == 0 || (off + tot) % BSIZE == 0)
    ensures Visited(off, tot + len) == Visited(off, tot) + 1
  {
    hide BlocksFor;
    PieceBlocks(off + tot, len);
    if tot > 0 { AlignedBlocks(off + tot); }
  }

  lemma AllocStep(z: nat, pos: nat, len: nat)
    requires 1 <= len && pos % BSIZE + len <= BSIZE
    ensures Max(z, BlocksFor(pos + len)) == Max(z, BlocksFor(pos)) + if pos / BSIZE < Max(z, BlocksFor(pos)) then 0
            else 1
  {
    hide BlocksFor;
    PieceBlocks(pos, len);
  }

  lemma LogsSubset(l0: set<nat>, l1: set<nat>, l2: set<nat>, D: set<nat>, M: set<nat>, I1: set<nat>, I2: set<nat>,
          addr: nat, maps: set<nat>)
    requires l1 <= l0 + D + M + I1 && I1 <= I2 && l2 <= l1 + maps + {addr} + I2
    ensures l2 <= l0 + (D + {addr}) + (M + maps) + I2
  {}

  lemma AlignedBlocks(pos: nat)
    requires pos % BSIZE == 0
    ensures BlocksFor(pos) == pos / BSIZE
  {}

  /**
    The transaction bound: a write of at most one filewrite chunk logs at most MAXOPBLOCKS
    blocks even when every allocation touches a different bitmap block, because an unaligned
    first block is already allocated.
   */
  lemma ChunkBound(fs0: Fs, fs: Fs, logged0: set<nat>, logged: set<nat>, i: nat, off: nat, n: nat, D: set<nat>,
          M: set<nat>, extra: set<nat>)
    requires i < |fs0.inodes| && off <= fs0.inodes[i].size && n <= CHUNK && |extra| <= 1
    requires LogsWithin(fs0, fs, logged0, logged, i, off, n, D, M)
    ensures |logged + extra| <= |logged0| + MAXOPBLOCKS
  {
    hide RefAt;
    var I := IndirectSet(fs, i);
    var all := logged0 + D + M + I + extra;
    UnionCard(logged0 + D + M + I, extra);
    UnionCard(logged0 + D + M, I);
    UnionCard(logged0 + D, M);
    UnionCard(logged0, D);
    SubsetCard(logged + extra, all);
    ChunkBlocks(off, n, fs0.inodes[i].size);
  }

  /** Blocks visited and allocated by a chunk: at most 4 + 3, which a chunk at offset 1 of a one-byte file reaches. */
  lemma ChunkBlocks(off: nat, n: nat, size: nat)
    requires off <= size && n <= CHUNK
    ensures Visited(off, n) + Max(BlocksFor(size), BlocksFor(off + n)) - BlocksFor(size) <= MAXOPBLOCKS - 3
    ensures Visited(1, CHUNK) + Max(BlocksFor(1), BlocksFor(1 + CHUNK)) - BlocksFor(1) == MAXOPBLOCKS - 3
  {}
}
