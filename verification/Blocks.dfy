/**
  Disk blocks as the kernel sees them: 512 bytes that are read either as bytes,
  as 128 little-endian 32-bit words (log header, indirect block, on-disk inode)
  or as 4096 bits (free map).
 */
module Blocks {

  const BSIZE: nat := 512
  const NWORDS: nat := 128   // BSIZE / sizeof(uint)
  const BPB: nat := 4096     // BSIZE * 8
  const UINT_MAX: nat := 0xFFFF_FFFF

  type Byte = x: nat | x < 256
  type Word32 = x: nat | x <= UINT_MAX
  type Block = b: seq<Byte> | |b| == BSIZE witness seq(BSIZE, _ => 0)
  type Disk = seq<Block>

  function ZeroBlock(): (b: Block)
    ensures forall i :: 0 <= i < BSIZE ==> b[i] == 0
  {
    seq(BSIZE, _ => 0)
  }

  const ZERO: Block := ZeroBlock()

  // ---- 32-bit words ----

  function Word(b: Block, i: nat): (w: Word32)
    requires i < NWORDS
  {
    var b0: int, b1: int, b2: int, b3: int := b[4 * i], b[4 * i + 1], b[4 * i + 2], b[4 * i + 3];
    b0 + 0x100 * b1 + 0x1_0000 * b2 + 0x100_0000 * b3
  }

  /** The four bytes of a word, least significant first. */
  function Bytes4(w: Word32): (r: (Byte, Byte, Byte, Byte))
    ensures w == r.0 + 0x100 * (r.1 as int) + 0x1_0000 * (r.2 as int) + 0x100_0000 * (r.3 as int)
  {
    var w1 := w / 0x100;
    var w2 := w1 / 0x100;
    (w % 0x100, w1 % 0x100, w2 % 0x100, w2 / 0x100)
  }

  function SetWord(b: Block, i: nat, w: Word32): (r: Block)
    requires i < NWORDS
    ensures forall j :: 0 <= j < NWORDS ==> Word(r, j) == if j == i then w else Word(b, j)
    ensures forall p :: 0 <= p < BSIZE && p / 4 != i ==> r[p] == b[p]
  {
    var (b0, b1, b2, b3) := Bytes4(w);
    b[4 * i := b0][4 * i + 1 := b1][4 * i + 2 := b2][4 * i + 3 := b3]
  }

  lemma WordZero(i: nat)
    requires i < NWORDS
    ensures Word(ZERO, i) == 0
  {}

  // ---- bits ----

  /** The byte mask 1 << k. */
  function Mask(k: nat): (m: nat)
    ensures m >= 1
  {
    if k == 0 then 1 else 2 * Mask(k - 1)
  }

  /** Bit k of x, counted from the least significant. */
  predicate BitOf(x: nat, k: nat)
  {
    if k == 0 then x % 2 == 1 else BitOf(x / 2, k - 1)
  }

  predicate Bit(b: Block, i: nat)
    requires i < BPB
  {
    BitOf(b[i / 8], i % 8)
  }

  /** Setting bit i of the block, which is clear. */
  function SetBit(b: Block, i: nat): (r: Block)
    requires i < BPB && !Bit(b, i)
  {
    ByteBound(b[i / 8], i % 8);
    b[i / 8 := (b[i / 8] as int) + Mask(i % 8)]
  }

  lemma SetBitOnly(b: Block, i: nat)
    requires i < BPB && !Bit(b, i)
    ensures forall j :: 0 <= j < BPB ==> Bit(SetBit(b, i), j) == (j == i || Bit(b, j))
  {
    forall j | 0 <= j < BPB ensures Bit(SetBit(b, i), j) == (j == i || Bit(b, j)) {
      if j / 8 == i / 8 { AddMask(b[i / 8], i % 8, j % 8); }
    }
  }

  /** Clearing bit i of the block, which is set. */
  function ClearBit(b: Block, i: nat): (r: Block)
    requires i < BPB && Bit(b, i)
  {
    SubMask(b[i / 8], i % 8, 0);
    b[i / 8 := (b[i / 8] as int) - Mask(i % 8)]
  }

  lemma ClearBitOnly(b: Block, i: nat)
    requires i < BPB && Bit(b, i)
    ensures forall j :: 0 <= j < BPB ==> Bit(ClearBit(b, i), j) == (j != i && Bit(b, j))
  {
    forall j | 0 <= j < BPB ensures Bit(ClearBit(b, i), j) == (j != i && Bit(b, j)) {
      if j / 8 == i / 8 { SubMask(b[i / 8], i % 8, j % 8); }
    }
  }

  lemma {:induction false} AddMask(x: nat, k: nat, j: nat)
    requires !BitOf(x, k)
    ensures BitOf(x + Mask(k), j) == (j == k || BitOf(x, j))
  {
    if k > 0 {
      assert (x + Mask(k)) / 2 == x / 2 + Mask(k - 1);
      if j > 0 { AddMask(x / 2, k - 1, j - 1); }
    } else if j > 0 {
      assert (x + 1) / 2 == x / 2;
    }
  }

  lemma {:induction false} SubMask(x: nat, k: nat, j: nat)
    requires BitOf(x, k)
    ensures x >= Mask(k) && BitOf(x - Mask(k), j) == (j != k && BitOf(x, j))
  {
    if k > 0 {
      SubMask(x / 2, k - 1, if j > 0 then j - 1 else 0);
      assert (x - Mask(k)) / 2 == x / 2 - Mask(k - 1);
    } else if j > 0 {
      assert (x - 1) / 2 == x / 2;
    }
  }

  /** Setting a clear bit keeps a number below any bound 2^n that exceeds the bit. */
  lemma {:induction false} MaskBound(x: nat, k: nat, n: nat)
    requires k < n && x < Mask(n) && !BitOf(x, k)
    ensures x + Mask(k) < Mask(n)
  {
    var m, half := Mask(n - 1), x / 2;
    assert Mask(n) == 2 * m && x <= 2 * half + 1;
    if k > 0 {
      var a := Mask(k - 1);
      assert half < m && !BitOf(half, k - 1);
      MaskBound(half, k - 1, n - 1);
      calc {
        x + Mask(k);
      <=
        2 * half + 1 + 2 * a;
      <=
        2 * (m - 1) + 1;
      }
    } else {
      assert x == 2 * half && half <= m - 1;
    }
  }

  lemma ByteBound(x: Byte, k: nat)
    requires k < 8 && !BitOf(x, k)
    ensures x + Mask(k) < 256
  {
    assert Mask(4) == 16;
    assert Mask(8) == 256;
    MaskBound(x, k, 8);
  }

  /** Bit k goes from a to y, and so it goes from x to d; where it does not change, d has the bit of x. */
  predicate MovesBit(a: nat, y: nat, x: nat, d: nat, k: nat)
  {
    if BitOf(y, k) == BitOf(a, k) then BitOf(d, k) == BitOf(x, k)
    else BitOf(x, k) == BitOf(a, k) && BitOf(d, k) == BitOf(y, k)
  }

  /** Changing the same bits the same way adds the same amount. */
  lemma {:induction false} MovesAdd(a: nat, y: nat, x: nat, d: nat, n: nat)
    requires a < Mask(n) && y < Mask(n) && x < Mask(n) && d < Mask(n)
    requires forall k :: 0 <= k < n ==> MovesBit(a, y, x, d, k)
    ensures d + a == x + y
  {
    if n > 0 {
      assert MovesBit(a, y, x, d, 0);
      forall k | 0 <= k < n - 1 ensures MovesBit(a / 2, y / 2, x / 2, d / 2, k) {
        assert MovesBit(a, y, x, d, k + 1);
      }
      MovesAdd(a / 2, y / 2, x / 2, d / 2, n - 1);
    }
  }

  // ---- sequences of block writes ----

  datatype Write = Write(b: nat, data: Block)

  function Apply(d: Disk, ws: seq<Write>): (e: Disk)
    ensures |e| == |d|
  {
    if ws == [] then d else
      var e := Apply(d, ws[..|ws| - 1]);
      var w := ws[|ws| - 1];
      if w.b < |e| then e[w.b := w.data] else e
  }

  lemma {:induction false} ApplyConcat(d: Disk, a: seq<Write>, b: seq<Write>)
    ensures Apply(d, a + b) == Apply(Apply(d, a), b)
  {
    if b == [] {
      assert a + b == a;
    } else {
      assert (a + b)[..|a + b| - 1] == a + b[..|b| - 1];
      ApplyConcat(d, a, b[..|b| - 1]);
    }
  }

  lemma ApplyStep(d: Disk, ws: seq<Write>, k: nat)
    requires k < |ws| && ws[k].b < |d|
    ensures Apply(d, ws[..k + 1]) == Apply(d, ws[..k])[ws[k].b := ws[k].data]
  {
    assert ws[..k + 1][..k] == ws[..k];
  }
}
