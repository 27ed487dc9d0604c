/** The on-disk layout of kernel/fs.h: bitmap bits and inodes inside blocks. */
module FsLayout {
  import opened Blocks

  const NDIRECT := 12
  const NINDIRECT := 256           // BSIZE / sizeof(uint)
  const MAXFILE := 268             // NDIRECT + NINDIRECT
  const BPB := 8192                // bitmap bits per block
  const IPB := 16                  // inodes per block
  const INODE_WORDS := 16          // sizeof(struct dinode) / sizeof(uint)

  /** The superblock; datastart is size - nblocks, the first block that files may own. */
  datatype Super = Super(size: nat, ninodes: nat, inodestart: nat, bmapstart: nat, datastart: nat) {
    predicate Ok() {
      && 0 < inodestart
      && inodestart + ninodes / IPB < bmapstart
      && bmapstart + size / BPB < datastart <= size < UINT
    }
    function IBlock(i: nat): nat { i / IPB + inodestart }
    function BBlock(b: nat): nat { b / BPB + bmapstart }
  }

  // ---- bits of a byte --------------------------------------------------------------------

  function Pow2(n: nat): nat { if n == 0 then 1 else 2 * Pow2(n - 1) }

  function TestBit(x: nat, k: nat): bool {
    if k == 0 then x % 2 == 1 else TestBit(x / 2, k - 1)
  }

  /** x | (1 << k), or x & ~(1 << k), for a number of width bits. */
  function WithBit(x: nat, k: nat, on: bool, width: nat): (r: nat)
    requires k < width && x < Pow2(width)
    ensures r < Pow2(width)
  {
    if k == 0 then x / 2 * 2 + (if on then 1 else 0) else WithBit(x / 2, k - 1, on, width - 1) * 2 + x % 2
  }

  lemma {:induction false} TestWithBit(x: nat, k: nat, on: bool, width: nat, j: nat)
    requires k < width && x < Pow2(width)
    ensures TestBit(WithBit(x, k, on, width), j) == if j == k then on else TestBit(x, j)
  {
    if k > 0 && j > 0 { TestWithBit(x / 2, k - 1, on, width - 1, j - 1); }
  }

  // ---- the free map ----------------------------------------------------------------------

  /** Is block b marked in use? */
  function InUse(sb: Super, store: Disk, b: nat): bool
    requires sb.Ok() && |store| == sb.size && b < sb.size
  {
    TestBit(store[sb.BBlock(b)][b % BPB / 8], b % 8)
  }

  function Mark(bp: Block, bi: nat, on: bool): Block
    requires bi < BPB
  {
    assert Pow2(8) == 256;
    bp[bi / 8 := WithBit(bp[bi / 8], bi % 8, on, 8)]
  }

  lemma MarkBit(bp: Block, bi: nat, on: bool, ci: nat)
    requires bi < BPB && ci < BPB
    ensures TestBit(Mark(bp, bi, on)[ci / 8], ci % 8) == if ci == bi then on else TestBit(bp[ci / 8], ci % 8)
  {
    assert Pow2(8) == 256;
    TestWithBit(bp[bi / 8], bi % 8, on, 8, ci % 8);
    assert ci == ci / 8 * 8 + ci % 8 && bi == bi / 8 * 8 + bi % 8;
  }

  /** Marking one block in the free map changes the mark of that block only. */
  lemma MarkOne(sb: Super, store: Disk, b: nat, on: bool, c: nat)
    requires sb.Ok() && |store| == sb.size && b < sb.size && c < sb.size
    ensures sb.BBlock(b) < sb.datastart
    ensures InUse(sb, store[sb.BBlock(b) := Mark(store[sb.BBlock(b)], b % BPB, on)], c)
            == if c == b then on else InUse(sb, store, c)
  {
    var bp, bi, ci := store[sb.BBlock(b)], b % BPB, c % BPB;
    assert bi % 8 == b % 8 && ci % 8 == c % 8;
    if sb.BBlock(b) == sb.BBlock(c) {
      MarkBit(bp, bi, on, ci);
      assert bi == ci <==> b == c;
    }
  }

  // ---- inodes ----------------------------------------------------------------------------

  /** struct inode as far as it lives on disk. */
  datatype Inode = Inode(typ: nat, major: nat, minor: nat, nlink: nat, size: nat, addrs: seq<nat>) {
    predicate Ok() {
      && typ < 0x1_0000 && major < 0x1_0000 && minor < 0x1_0000 && nlink < 0x1_0000 && size < UINT
      && |addrs| == NDIRECT + 1 && forall k :: 0 <= k < |addrs| ==> addrs[k] < UINT
    }
    /** The sixteen words of struct dinode. */
    function Words(): (ws: seq<nat>)
      requires Ok()
      ensures |ws| == INODE_WORDS && forall k :: 0 <= k < |ws| ==> ws[k] < UINT
    {
      [typ + 0x1_0000 * major, minor + 0x1_0000 * nlink, size] + addrs
    }
  }

  /** bp with the words ws[..k] stored from word at on (the field assignments of iupdate). */
  function PutWords(bp: Block, at: nat, ws: seq<nat>, k: nat): Block
    requires k <= |ws| && at + |ws| <= WORDS && forall j :: 0 <= j < |ws| ==> ws[j] < UINT
  {
    if k == 0 then bp else PutWord(PutWords(bp, at, ws, k - 1), at + k - 1, ws[k - 1])
  }

  lemma {:induction false} PutWordsAt(bp: Block, at: nat, ws: seq<nat>, k: nat, j: nat)
    requires k <= |ws| && at + |ws| <= WORDS && j < WORDS && forall j :: 0 <= j < |ws| ==> ws[j] < UINT
    ensures Word(PutWords(bp, at, ws, k), j) == if at <= j < at + k then ws[j - at] else Word(bp, j)
  {
    if k > 0 {
      PutWordsAt(bp, at, ws, k - 1, j);
      WordOfPutWord(PutWords(bp, at, ws, k - 1), at + k - 1, j, ws[k - 1]);
    }
  }

  /** Word offset of inode i in its block. */
  function Offset(i: nat): (at: nat)
    ensures at + INODE_WORDS <= WORDS
  {
    i % IPB * INODE_WORDS
  }

  lemma OffsetsApart(i: nat, j: nat)
    ensures if i % IPB == j % IPB then Offset(i) == Offset(j)
            else Offset(i) + INODE_WORDS <= Offset(j) || Offset(j) + INODE_WORDS <= Offset(i)
  {
  }

  function WordsFrom(bp: Block, at: nat, n: nat): (ws: seq<nat>)
    requires at + n <= WORDS
    ensures |ws| == n && forall k :: 0 <= k < n ==> ws[k] == Word(bp, at + k) < UINT
  {
    if n == 0 then [] else WordsFrom(bp, at, n - 1) + [Word(bp, at + n - 1)]
  }

  /** The inode whose words start at at, as ilock reads it. */
  function ReadWords(bp: Block, at: nat): (r: Inode)
    requires at + INODE_WORDS <= WORDS
    ensures r.Ok()
  {
    Inode(Word(bp, at) % 0x1_0000, Word(bp, at) / 0x1_0000, Word(bp, at + 1) % 0x1_0000, Word(bp, at + 1) / 0x1_0000,
          Word(bp, at + 2), WordsFrom(bp, at + 3, NDIRECT + 1))
  }

  function GetInode(bp: Block, i: nat): Inode { ReadWords(bp, Offset(i)) }

  /** iupdate's change to the inode block. */
  function PutInode(bp: Block, i: nat, ino: Inode): Block
    requires ino.Ok()
  {
    PutWords(bp, Offset(i), ino.Words(), INODE_WORDS)
  }

  lemma SameWords(bp: Block, at: nat, ino: Inode)
    requires ino.Ok() && at + INODE_WORDS <= WORDS
    requires forall k :: 0 <= k < INODE_WORDS ==> Word(bp, at + k) == ino.Words()[k]
    ensures ReadWords(bp, at) == ino
  {
    var r := ReadWords(bp, at);
    assert Word(bp, at + 0) == ino.Words()[0] && Word(bp, at + 1) == ino.Words()[1]
           && Word(bp, at + 2) == ino.Words()[2];
    forall k | 0 <= k <= NDIRECT ensures r.addrs[k] == ino.addrs[k] {
      assert Word(bp, at + (3 + k)) == ino.Words()[3 + k];
    }
    assert r.addrs == ino.addrs;
  }

  lemma OtherWords(bp: Block, bq: Block, at: nat)
    requires at + INODE_WORDS <= WORDS && forall k :: at <= k < at + INODE_WORDS ==> Word(bp, k) == Word(bq, k)
    ensures ReadWords(bp, at) == ReadWords(bq, at)
  {
    var r, q := ReadWords(bp, at), ReadWords(bq, at);
    assert r.addrs == q.addrs;
  }

  /** What iupdate stores, ilock reads back, and the other inodes of the block do not move. */
  lemma InodeRoundTrip(bp: Block, i: nat, ino: Inode, j: nat)
    requires ino.Ok()
    ensures GetInode(PutInode(bp, i, ino), j) == if j % IPB == i % IPB then ino else GetInode(bp, j)
  {
    OffsetsApart(i, j);
    var bq := PutInode(bp, i, ino);
    forall k: nat | k < WORDS
      ensures Word(bq, k) == if Offset(i) <= k < Offset(i) + INODE_WORDS then ino.Words()[k - Offset(i)]
              else Word(bp, k)
    {
      PutWordsAt(bp, Offset(i), ino.Words(), INODE_WORDS, k);
    }
    if j % IPB == i % IPB {
      SameWords(bq, Offset(j), ino);
    } else {
      OtherWords(bq, bp, Offset(j));
    }
  }
}
